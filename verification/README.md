# The class-scheduling engine, modelled and proved in Dafny

UnlockEd schedules classes with several recurrence rows each, cancels or moves single sessions with
overrides that link to one another, and checks rooms and instructors for conflicts before it stores a
class. This project models that engine, and three smaller parts with loops of their own: the Link-header
reader of the Canvas client, attendance streaks and rates, and the per-facility feature switches.
`dafny verify dfyconfig.toml` checks everything.

How the model reads the source:

- Tables are maps of rows by id, with a deleted flag where the source soft-deletes. A transaction is
  atomic and a failed one restores what was there. The one exception is class creation, where every
  statement of a transaction is a step of its own and steps of different transactions interleave.
- Times are whole minutes of local time, days are counted from 1 January 1970, and an event repeats by a
  weekly rule (`Schedule`). In `SeriesTheorems` the expansion of a rule without its UNTIL is a parameter, so
  the results on cutting a series hold for every kind of rule.
- The stored text of an override rule is an opaque key together with what parsing it gives: nothing, or a
  list of occurrences. Class rule texts are real strings (`RuleText`, `SeriesRules`).
- Methods follow the loops of the source and are proved equal to functions; the lemmas are about the functions.

Where the code and what is written about it differ:

- The comment on the closing "restore parents" update (`backend/src/database/class_events.go:471`) says it
  keeps a chain alive. In an ordered table it changes nothing (`OverrideRuns.RescheduleRestoreIsIdle`).
- Links can form a cycle (`OverrideRuns.BackAndForthMakesACycle`), re-deriving the dates of a class without
  UNTIL is not idempotent (`ClassBoundaries.WithoutUntilTheEndDrifts`), sessions that end at midnight or later
  are misjudged by the overlap test (`Conflicts.JudgedRightExactly`), a cancelled branch left over on a
  session can hide where it was moved to (`ChainExamples.LeftoverBranchHidesTheTarget`), so can another override
  for its time under another rule text, such as a bulk cancellation (`ChainExamples.BulkCancelHidesTheMove`),
  and restoring a series from a date outside it can add days (`SeriesTheorems.UncancelConserves`). For each,
  when the code does what it should is proved as an if and only if: `OverrideRuns.RescheduleTheorem`,
  `ClassBoundaries.SecondRunExactly`, `Conflicts.JudgedRightExactly`, `ChainBranches.ReportedExactly` and
  `SeriesTheorems.UncancelConserves`. The results on moves are for ordered tables, which is what every run of
  guarded steps leaves (`OverrideRuns.EveryRunIsOrdered`).

## Model

| member | source | states |
|---|---|---|
| ClassCreation.EveryInterleavingIsSafe | backend/src/database/program_classes.go:120-143 | over every interleaving of any number of creations, lock ownership is exclusive, the checks already made stay true until commit, and every committed class passes its own check, in the window of its own rule, against exactly the classes committed before it |
| ClassCreation.NoDoubleBooking | backend/src/database/program_classes.go:125-140 | no session of a later committed class overlaps a session of an earlier class of the facility in the room or by the instructor of the later one, both taken in the checked range: from the later of DTSTART and a year ago, for a year or up to UNTIL; for one-day sessions that is disjointness of the intervals |
| ClassCreation.NoWaitCycle | backend/src/database/rooms.go:42-57 | in no reachable state do transactions wait for each other in a circle |
| ClassCreation.SomeoneCanAlwaysAdvance | backend/src/database/rooms.go:42-57 | behind every unfinished transaction, at most two waits away, some transaction can take a step other than giving up |
| ClassCreation.Creations.CreateProgramClass | backend/src/database/program_classes.go:108-144 | a valid class that the database takes is stored, with a conflict request exactly when the check finds nothing, which keeps the serial order; every other outcome stores nothing |
| ConflictCheck.CheckConflicts | backend/src/database/rooms.go:61-85 | the answer is empty exactly when every stored class of the facility is clear of the requested room and instructor; it lists all conflicts of the sessions in the room, then of those by the instructor, or fifty of them when there are more; it is an error exactly when the window cannot be prepared or a selected event does not expand; 0 means not checked |
| Conflicts.WindowExactly | backend/src/database/rooms.go:133-152 | the range a rule is checked in, and its occurrences: exactly those of the rule from a year ago on, for a year from there or from DTSTART, whichever is later |
| ConflictCheck.PassesExactly | backend/src/database/rooms.go:61-85 | a request passes exactly when it names no room and no instructor, or its rule and duration parse, every event looked at expands, and no occurrence of the checked year overlaps one of its sessions in the room or by the instructor, excluded events and classes apart |
| ConflictCheck.RoomContentExactly | backend/src/database/rooms.go:222-243 | the bookings compared for a room are those of the sessions held in it, with their times, event and class |
| ConflictCheck.InstructorContentExactly | backend/src/database/instructor_conflicts.go:44-129 | the same for an instructor |
| Conflicts.BuildConflictsFromBookings | backend/src/database/rooms.go:156-212 | the loop with its two early exits returns the first fifty entries of the full occurrence-by-booking enumeration |
| Conflicts.ConflictsExactly | backend/src/database/rooms.go:179-209 | the entries of the full enumeration: one for an occurrence and an overlapping booking of no excluded event or class, with the booking's event, class and times and the name of the class or "Unknown Class" |
| Conflicts.NoConflictsExactly | backend/src/database/rooms.go:179-209 | no conflict is reported exactly when no checked occurrence clashes with a booking that is not excluded |
| Conflicts.OverlapIsIntersection | backend/src/database/rooms.go:342-355 | for sessions that start and end on one local day, the clock comparison is half-open interval intersection |
| Conflicts.JudgedRightExactly | backend/src/database/rooms.go:342-355 | a session is judged right against every one-day session exactly when it ends on the day it starts, the last minute of a day apart |
| Bookings.ExpandEventToBookings | backend/src/database/rooms.go:245-340 | the bookings of a room are, in start order, the event's sessions whose effective room it is; an event without a room has none, and an unparsable rule or duration is an error |
| Bookings.ExpandEventToInstructorBookings | backend/src/database/instructor_conflicts.go:44-129 | the same for an instructor, without the room condition |
| Bookings.RoomBookingsPartition | backend/src/database/rooms.go:281-333 | the expansions of an event for any rooms that include its effective rooms hold, together, the booking of every session exactly once, each in the room it was expanded for |
| Bookings.InstructorBookingsPartition | backend/src/database/instructor_conflicts.go:75-122 | the expansions for any instructors that include the effective ones hold, together, the booking of every session that has an instructor exactly once, each under that instructor |
| Bookings.BaseSessionsExactlyOnce | backend/src/database/rooms.go:262-292 | an occurrence of the rule in the range is a session once, of the event's length, room and instructor, unless a cancelled or a counting override has a time in the range on its day |
| Bookings.OverrideSessionMembers | backend/src/database/rooms.go:303-333 | the sessions overrides add are exactly the occurrences of the counting ones, with their own length, room and instructor or else the event's |
| Bookings.OverrideSessionsExactlyOnce | backend/src/database/rooms.go:303-333 | a session of an override occurs once for each counting override and time it fits |
| OverrideStore.Store.CreateOverrideEvents | backend/src/database/class_events.go:346-499 | upserts, target cleanup, link carry-over, attendance removal and parent restore equal the specification; the class then starts at the earliest DTSTART or moved date and ends at the latest UNTIL or date that its series and the live overrides give, and no other class changes; a class that cannot be derived, like any other failure, rolls everything back |
| OverrideStore.Store.Upsert | backend/src/database/class_events.go:362-468 | one request: cleanup of old targets, the upsert by key, the link carried forward, the remembered parent and cancel |
| OverrideStore.Store.CollectChain | backend/src/database/class_events.go:264-306 | the breadth-first search ends on every link graph and returns, without repetition, exactly the connected component of the start |
| OverrideStore.Store.DeleteOverrideEvent | backend/src/database/class_events.go:245-339 | exactly the component is marked deleted and no other row changes, the attendance on its own event and day is removed and no other, no survivor's link loses its row, and the dates of the class follow from the table again; a failure changes nothing |
| OverrideStore.Store.UncancelOverride | backend/src/database/class_events.go:233-241 | only the cancelled mark and the reason of one live override change |
| ClassDates.LoadEventsExactly | backend/src/database/class_events.go:503-506 | what the derivation reads are the series rows of the class, in order, each with exactly the live overrides of its event |
| ClassDates.DerivedFollowsTable | backend/src/database/class_events.go:501-622 | the derived dates in terms of the series and the override rows alone, with the bounds of the search |
| OverrideTable.ComponentIsIsolated | backend/src/database/class_events.go:280-306 | no link joins a component with the rest |
| OverrideTable.ClosedHoldsComponent | backend/src/database/class_events.go:280-306 | a set closed under links in both directions that holds the start holds everything reachable |
| OverrideLinks.PutConsistent | backend/src/database/class_events.go:395-419 | writing one override keeps unique keys, landing links, one target per cancel and acyclicity exactly when it links to a live cancel without another target and nobody links to it if it counts |
| OverrideRuns.SingleTheorem | backend/src/database/class_events.go:375-419 | a single override keeps the table ordered if and only if it is a cancel or its slot holds no cancel that is linked to or whose parent has another target |
| OverrideRuns.RescheduleTheorem | backend/src/handlers/class_events.go:308-327 | a reschedule keeps the table ordered if and only if its slots differ and no override links to a cancel already holding the target slot |
| OverrideRuns.LiftTheorem | backend/src/database/class_events.go:230-241 | lifting a cancellation keeps the table ordered if and only if nobody links to it and its parent has no other target |
| OverrideRuns.DeleteChainTheorem | backend/src/database/class_events.go:319-322 | deleting a chain always keeps the table ordered |
| OverrideRuns.BulkCancelTheorem | backend/src/database/program_classes.go:886-926 | so does a bulk cancellation |
| OverrideRuns.EveryRunIsOrdered | backend/src/database/class_events.go:346-499 | over every run of guarded steps from the empty table, live keys are unique, every link lands on a live cancel, links are acyclic and a cancel has at most one counting target |
| OverrideRuns.SingleRestoreIsIdle | backend/src/database/class_events.go:471-480 | after a single override the restore of parents changes nothing |
| OverrideRuns.RescheduleRestoreIsIdle | backend/src/database/class_events.go:471-480 | after a reschedule it changes nothing either |
| OverrideRuns.SingleReadsBack | backend/src/database/class_events.go:375-419 | after a guarded single request the live override at its slot carries the request, keeps its id and link when there was one, and no other row differs |
| OverrideRuns.RescheduleReadsBack | backend/src/database/class_events.go:362-419 | after a guarded reschedule the old slot holds the cancel, the new slot a counting override linked to it, and of the other live rows only the cancel's earlier targets go |
| OverrideRuns.SingleSucceeds | backend/src/database/class_events.go:375-468 | a single override is refused only for a date that does not parse: by every cancel, and by others when the slot is held or a room or an instructor is named |
| OverrideRuns.RescheduleSucceeds | backend/src/database/class_events.go:425-468 | a reschedule is refused exactly when one of its dates or the new length does not parse |
| OverrideTable.AttendanceFollowsRequests | backend/src/database/class_events.go:458-468 | attendance is only ever removed, on the event and first day of some request, and always on those of the cancels |
| OverrideTable.SingleAttendanceExactly | backend/src/database/class_events.go:458-468 | a single request removes attendance exactly on its event and day, and only when it is a cancel or overwrites a row |
| OverrideTable.ParentIsRestored | backend/src/database/class_events.go:471-480 | overwriting a row that is linked to a deleted one brings that one back, whatever the table |
| OverrideTable.RequestWithId | backend/src/database/class_events.go:395-413 | a request with an id overwrites that row but for its event, or does nothing when it is gone |
| OverrideRuns.BackAndForthMakesACycle | backend/src/database/class_events.go:362-394 | from the empty table, moving A to B and then B to A succeeds and leaves two overrides linked to each other, and it is the guard of the second step that fails |
| BulkCancel.BulkCancelSessions | backend/src/database/program_classes.go:662-970 | of the sessions selected, session count plus already-cancelled count is their number, the classes' counts add up to the session count, and the table gains exactly the new cancellations; a request that does not validate, a date that does not parse, a look-up or an insert that fails changes nothing |
| BulkCancel.SelectedExactly | backend/src/database/program_classes.go:662-745 | the sessions selected are exactly the occurrences, on the days from the first to the last one asked for, of the facility's events by that instructor; a request without an instructor or with a reason of the wrong length is refused |
| BulkCancel.UnreadableDates | backend/src/database/program_classes.go:24-38 | a date that is not written YYYY-MM-DD is refused |
| BulkCancel.SelectedOnce | backend/src/database/program_classes.go:714-745 | no session is selected twice |
| BulkCancel.InsertedRows | backend/src/database/program_classes.go:886-926 | old rows stay as they were, and new ones are cancels of sessions asked for, with the event's length and room and the given reason, and no instructor and no link |
| BulkCancel.SessionsConserved | backend/src/database/program_classes.go:867-879 | distinct class tallies of the cancelled sessions sum to their number |
| BulkCancel.SecondRun | backend/src/database/program_classes.go:810-926 | a second identical call inserts nothing, and reports every session as already cancelled if and only if no live counting override holds the slot of one of them |
| RescheduleChain.RescheduledToDate | backend/src/database/class_events.go:1350-1403 | the override that decides a session is found, a cancel with the reason "rescheduled" is followed, and the follower ends on every override list |
| RescheduleChain.FollowIsSound | backend/src/database/class_events.go:1372-1402 | any date reported is that of a counting override reached from the start through cancelled ones |
| ChainListings.FollowedEverywhere | backend/src/database/class_events.go:1371-1402 | on every link graph, cycles included, the follower reports one and the same date in every order of the listing if and only if every descent from the cancel, over cancels without a target, ends at that date |
| ChainListings.ShownEverywhere | backend/src/database/class_events.go:1350-1403 | a session is shown as moved to one and the same day in every order of the listing if and only if some override of the event is for its time (targets of reschedules apart), and each that is is a cancel that says "rescheduled" and from which every descent ends at that day |
| ChainBranches.ReportedExactly | backend/src/database/class_events.go:1350-1403 | after any number of successive reschedules of a session to slots that hold no cancel, it is shown as moved to the last slot in every order of the listing if and only if, before the moves: the cancels written for its time say "rescheduled"; so does every other override for its time under another rule text; and every branch below those, or with more than one move left over below its own cancel, leads to that date too |
| ChainBranches.FollowsEveryMove | backend/src/database/class_events.go:1365-1403 | so a session with no other override for its time under another rule text, and no other cancel of its event linked to its own, is shown as moved to the last slot when the moves say "rescheduled" |
| ChainBranches.LeftoverHidesTheTarget | backend/src/database/class_events.go:1390-1399 | with a cancel left over on the session to which nothing is linked, and more than one move, some order of the listing shows nothing |
| ChainBranches.OtherDeciderHidesTheTarget | backend/src/database/class_events.go:1040-1078 | with another override for the time of the session that is no cancel saying "rescheduled", or one to which nothing is linked, some order of the listing shows nothing after one move already |
| ChainExamples.LeftoverBranchHidesTheTarget | backend/src/database/class_events.go:1390-1399 | a leftover branch arises from the empty table in four guarded, successful calls: move A to B, cancel B, move A to C, move C to D |
| ChainExamples.BulkCancelHidesTheMove | backend/src/database/program_classes.go:888-900 | another override for the time arises in two: bulk-cancel a session under the text that the bulk cancellation writes, then move it under the text that the reschedule writes |
| ClassSeries.Store.CreateRescheduleEventSeries | backend/src/database/class_events.go:84-148 | every live row of the class is deleted, kept or capped, the new series is added unless it is dead, and failures change nothing |
| SeriesTheorems.CutPrinted | backend/src/database/class_events.go:102-123 | on rule texts the string comparisons decide as the days do, and capping prints the capped rule |
| SeriesTheorems.CutOnlyShortens | backend/src/database/class_events.go:79-83 | for any number of rows, the days left are exactly the old days up to the cut, and rows of other classes are untouched |
| SeriesTheorems.RescheduleHandsOver | backend/src/database/class_events.go:79-142 | the class has its old days up to the cut and the days of the new series, its rows are described by the cut rules and the new one unless that is dead, and a new series that starts after the cut shares no day with a kept row |
| SeriesTheorems.RescheduleRows | backend/src/database/class_events.go:102-142 | old rows keep everything but their rule, rows of other classes everything, and a new series that is not dead is stored with the rule, length, room, instructor and cancelled mark it was given |
| SeriesTheorems.RescheduleHeld | backend/src/database/class_events.go:79-142 | after the call the class is held on its old held days up to the cut, and on the days of the new series exactly when that is not cancelled |
| SeriesTheorems.RescheduleSeriesSucceeds | backend/src/database/class_events.go:84-142 | a reschedule is refused exactly when the closed series has no UNTIL, or a new series that is not dead has no length or a rule that does not parse |
| SeriesTheorems.WithoutNewSeries | backend/src/database/class_events.go:125-126 | without a new series the rows are only cut |
| ClassSeries.Store.UncancelEventSeries | backend/src/database/class_events.go:153-228 | the cancelled row is closed and a counting row with the same class, room, instructor and duration is added; missing rows and bad dates change nothing |
| SeriesTheorems.UncancelHandsOver | backend/src/database/class_events.go:153-228 | after a whole restoring of a weekly series the class has the closed and the restarted rule beside its others, which share no day; no day is lost, under the guard none is added, and the class is held on the days it was held on and on the restored ones from the restore date on |
| SeriesTheorems.UncancelRules | backend/src/database/class_events.go:172-221 | on rule texts the two rows are the rule closed the day before and the rule restarted at the restore date, with zone and time of day unchanged; the new row has the class, length, room and instructor of the old one and is not cancelled |
| SeriesTheorems.UncancelSeriesSucceeds | backend/src/database/class_events.go:153-228 | restoring is refused exactly for a row that is gone, has no length, or whose restarted rule does not parse |
| SeriesTheorems.UncancelConserves | backend/src/database/class_events.go:150-152 | the two weekly rules are disjoint and lose no day, and together cover exactly the old days if and only if the restore guard holds: the first weekday of the rule from the restore date on is not before DTSTART (or is after UNTIL), and none comes between the end of the series and the restore date |
| SeriesTheorems.RestoreInsideIsGuarded | backend/src/database/class_events.go:150-152 | a restore date from DTSTART to the day after UNTIL meets the guard |
| SeriesTheorems.WeeklyDaysAreOccurrences | backend/src/database/class_events.go:79-83 | the days of a weekly rule text are the days of the occurrences of the weekly rule in times that it stands for |
| SeriesTheorems.StoredTexts | backend/src/database/class_events.go:59-67 | a rule is printed as the rows hold it, and days are counted from Thursday 1 January 1970 |
| CivilDates.CompactOrder | backend/src/database/class_events.go:89-112 | 8-digit date strings compare as the days they name |
| CivilDates.PreviousIsOneLess | backend/src/database/class_events.go:170 | the day before a date is one day earlier, across month and leap-year ends |
| CivilDates.ParseIsoExactly | backend/src/database/class_events.go:165-169 | a text is read as a date exactly when it is that date written YYYY-MM-DD |
| RuleText.ReplaceOrAddUntilDate | backend/src/utils.go:35-49 | the first UNTIL part is overwritten, or one is added at the end |
| RuleText.GetUntilDateFromRule | backend/src/utils.go:25-33 | the text of the first UNTIL part, or "" |
| RuleText.UntilRoundTrip | backend/src/utils.go:25-49 | the date written is read back if and only if it has no ';' |
| RuleText.SecondReplacementWins | backend/src/utils.go:35-49 | a second replacement leaves no trace of the first |
| RuleText.OtherPartsUnchanged | backend/src/utils.go:35-49 | all parts but the first UNTIL keep their text and order |
| SeriesRules.ReplaceUntilPrinted | backend/src/utils.go:35-49 | replacing UNTIL in a printed two-line rule prints the rule with that UNTIL |
| SeriesRules.GetDtStartPrinted | backend/src/database/class_events.go:59-67 | the DTSTART date of a printed rule reads back |
| ClassBoundaries.ClassRow.SyncClassDateBoundaries | backend/src/database/class_events.go:501-622 | scan, branches and error cases equal the specification; nothing found changes nothing |
| ClassBoundaries.RunExactly | backend/src/database/class_events.go:501-622 | one run in terms of rows and overrides: earliest start; the latest UNTIL when nothing is overridden, else the latest of UNTIL, uncancelled sessions searched and moved dates, the search going three months past the end or, without one, five years past the start; unchanged when nothing is found |
| ClassBoundaries.SyncedBounds | backend/src/database/class_events.go:583-611 | with UNTIL on every row and some date found, start is the earliest DTSTART or moved date and end the latest UNTIL or moved date, whatever window was searched |
| ClassBoundaries.SecondRunExactly | backend/src/database/class_events.go:501-622 | a second run changes nothing if and only if the first found no date, or some row has UNTIL and none an override, or no session that is not cancelled comes after the end and within the look-ahead from it |
| ClassBoundaries.SecondEnd | backend/src/database/class_events.go:516-520 | a second run leaves the start, never moves the end back, and moves it on exactly when it reaches such a session |
| ClassBoundaries.SyncIsIdempotent | backend/src/database/class_events.go:501-622 | with UNTIL on every row, or on some row and no overrides, a second run changes nothing |
| ClassBoundaries.WithoutUntilTheEndDrifts | backend/src/database/class_events.go:516-520 | a row without UNTIL that has begun and has no day cancelled after the end moves the end on every further run, for every look-ahead of more than eight days, unless another row has UNTIL and none an override |
| ClassBoundaries.DailyClassDrifts | backend/src/database/class_events.go:516-520 | a class with one daily row drifts so on every run after the first |
| ClassCalendar.ApplyOverrides | backend/src/database/class_events.go:1082-1170 | the sorted output is exactly the occurrences no override hits and one instance per occurrence of each counting override |
| ClassCalendar.CalendarMembers | backend/src/database/class_events.go:1119-1164 | membership in that calendar in terms of the rule and the overrides alone, with length, room and the one-hour default |
| ClassCalendar.CalendarCounts | backend/src/database/class_events.go:1119-1164 | an instance is in it once for the rule, and once for each counting override and time |
| ClassCalendar.CheckEventsOverlap | backend/src/database/class_enrollments.go:471-517 | overlap is reported if and only if some pair of instances overlaps, with the interval of the first overlapping instance, event by event and then by start, and the weekdays met from Sunday to Saturday |
| ClassCalendar.CompareCalendars | backend/src/database/class_enrollments.go:487-515 | the nested loops find the first overlapping instance of the list and exactly the weekdays met |
| ClassCalendar.OverlapIsCommonMinute | backend/src/database/class_enrollments.go:497 | with positive durations the comparison holds exactly when some minute belongs to both |
| LinkHeader.NextPageURL | backend/src/handlers/canvas_programs.go:418-434 | the URI of the first entry that is a link with a next relation, or "" |
| LinkHeader.SplitLinkEntries | backend/src/handlers/canvas_programs.go:438-466 | the index loop splits at commas outside brackets and quotes |
| LinkHeader.ScanForParam | backend/src/handlers/canvas_programs.go:471-508 | the parameter loop with its early exit finds whether any parameter passes the check |
| LinkHeader.SplittingLosesNothing | backend/src/handlers/canvas_programs.go:438-466 | for every header, joining the entries with commas gives the header back |
| LinkHeader.NextPageInvertsPrinting | backend/src/handlers/canvas_programs.go:414-434 | for every list of links with parameters that are quoted word lists, escapes included, or single bare words, and any white space around them, reading the printed header gives the first link with a parameter named rel that has the word next, in any case, or "" |
| LinkHeader.FieldsOfWords | backend/src/handlers/canvas_programs.go:483-487 | the fields of a value are its words, whatever white space stands between and around them |
| LinkHeader.NoLinkIsSkipped | backend/src/handlers/canvas_programs.go:420-427 | an entry that does not begin with a bracket, or never closes it, is passed over |
| FacilityFeatures.FeatureTable.GetFacilityFeatureAccess | backend/src/database/facility_feature_access.go:31-66 | the loops return exactly the features that are on by the facility's row, or the statewide default where it has none, and whose parent is on too |
| FacilityFeatures.FeatureTable.UpsertFacilityFeatureFlag | backend/src/database/facility_feature_access.go:153-180 | refused for unknown features and for sub-features under a parent that is off; otherwise one row is set |
| FacilityFeatures.FeatureTable.ApplyFacilityFeaturesToAll | backend/src/database/facility_feature_access.go:184-246 | writes every feature for every other facility; an unknown source changes nothing |
| FacilityFeatures.UpsertExactly | backend/src/database/facility_feature_access.go:149-180 | after a successful upsert the feature is as set, its sub-features at that facility are off with it or as the facility has them, and nothing else that is effective changes |
| FacilityFeatures.ApplyCopiesEffectiveSet | backend/src/database/facility_feature_access.go:182-246 | every other facility then has the source's effective set of that moment, whatever the statewide defaults become |
| FacilityFeatures.ApplyTouchesOnlyOthers | backend/src/database/facility_feature_access.go:205-240 | the rows of the source and of facilities that are not there stay as they were |
| Attendance.ComputeConsecutiveAbsences | backend/src/database/events_attendance.go:343-390 | the one-pass counter equals, for each flagged user, the absent rows before the first attended one |
| Attendance.LeadingAbsencesExactly | backend/src/database/events_attendance.go:366-389 | the streak is the number of absent rows before the first attended one |
| Attendance.Record.ApplyTimeTracking | backend/src/handlers/events_attendance_handler.go:311-393 | when a record is accepted, its minutes and its status, and that minutes stay within the schedule with partial meaning some and present all of them |
| ClockTimes.ParseClockExactly | backend/src/handlers/events_attendance_handler.go:317-333 | a text is read as a clock time exactly when it writes one, the hour in one digit or two |
| Attendance.ClampIsIdle | backend/src/database/events_attendance.go:616-624 | over accepted partial records the clamp to 1 never acts |
| Attendance.RateIsPercentage | backend/src/database/events_attendance.go:609-639 | the cumulative rate of any accepted records is between 0 and 100 |
| Attendance.RateExactly | backend/src/database/events_attendance.go:609-639 | the rate of accepted records is a hundred times their mean share: all of a session, the minutes attended over those scheduled, or nothing; 0 without records |
| Attendance.UnmeasuredPartial | backend/src/database/events_attendance.go:616-624 | a partial record that lacks its minutes or its schedule counts in full |

## Left out

- Time zones and daylight saving (the canonical-hour code), and parsing inside the recurrence library: times are local minutes.
- Frequencies other than weekly in the expansions of bookings, calendars and boundaries.
- Change-log entries, the wording of messages, and the failure of the room and instructor name look-ups while a log entry is written: the look-ups are taken to succeed.
- OverrideStore.Store.CreateOverrideEvents: a request that names a room or an instructor and whose rule does not parse makes the code stop on a missing date instead of returning an error; it counts as a failed call.
- SeriesTheorems.UncancelHandsOver: excludes a restore date of 1 January of the year 0, because the day before has no four-digit year and the rule closed with it is no rule; ClassSeries.Store.UncancelEventSeries covers it.
- ClassBoundaries.SecondRunExactly: adding months and years is a parameter of which only that three months on is not earlier is used.
- Conflicts: a year before now and the addition of a year are parameters; the check sees only sessions that start inside the window, as in the source.
- Bookings, ApplyOverrides: entries with equal start times may come in either order, as sorting there is not stable.
- Check-then-insert paths without a lock (single events, series reschedules, enrolment capacity), class updates, and writers other than class creation running beside it.
- HTTP handlers, JSON, access control, SQL text, provider imports, reports, the user interface and logging.
