// Concurrent creation of classes: each transaction locks its room, then its instructor, checks for
// conflicts against what is committed, inserts and commits. Any steps may interleave.
module ClassCreation {
  import opened Prelude
  import opened Schedule
  import opened Bookings
  import opened Conflicts
  import opened ConflictCheck

  /** What a transaction brings: the new class, and the clock its check reads. */
  datatype Job = Job(class_: Class, clock: Clock)

  type TxId = nat

  function Target(id: Option<nat>): nat {
    if id.Some? then id.value else 0
  }

  function RequestOf(job: Job): Request {
    var event := job.class_.event;
    Request(job.class_.facilityId, event.rule, event.duration, Target(event.room), Target(event.instructor), None, None)
  }

  /** The window that the class's own rule is checked in. */
  function WindowFor(job: Job): Window {
    RequestWindow(RequestOf(job), job.clock)
  }

  function RoomOf(job: Job): nat {
    RequestOf(job).roomId
  }

  function InstructorOf(job: Job): nat {
    RequestOf(job).instructorId
  }

  /** A new class has no overrides yet. */
  predicate IsNew(job: Job) {
    job.class_.event.overrides == []
  }

  datatype Phase = Begun | RoomLocked | Locked | RoomChecked | Checked | Inserted | Committed | RolledBack

  function Rank(phase: Phase): nat {
    match phase
    case Begun => 0
    case RoomLocked => 1
    case Locked => 2
    case RoomChecked => 3
    case Checked => 4
    case Inserted => 5
    case Committed => 6
    case RolledBack => 6
  }

  predicate Finished(phase: Phase) {
    Rank(phase) == 6
  }

  /** Row locks by id, and the committed classes in commit order, `base` of them from before. */
  datatype State = State(
    phases: map<TxId, Phase>, roomLocks: map<nat, TxId>, instructorLocks: map<nat, TxId>, committed: seq<Job>)

  function PhaseIn(phases: map<TxId, Phase>, t: TxId): Phase {
    if t in phases then phases[t] else Begun
  }

  function PhaseOf(s: State, t: TxId): Phase {
    PhaseIn(s.phases, t)
  }

  function Classes(jobs: seq<Job>): seq<Class> {
    Map(jobs, (job: Job) => job.class_)
  }

  datatype Action = LockRoom | LockInstructor | CheckRoom | CheckInstructor | Insert | Commit | Abort

  predicate FreeFor(locks: map<nat, TxId>, id: nat, t: TxId) {
    id != 0 && id in locks ==> locks[id] == t
  }

  /** SELECT ... FOR UPDATE waits while another transaction holds the row; a failure may strike anywhere. */
  predicate Enabled(jobs: TxId -> Job, s: State, t: TxId, a: Action) {
    match a
    case LockRoom => PhaseOf(s, t) == Begun && FreeFor(s.roomLocks, RoomOf(jobs(t)), t)
    case LockInstructor => PhaseOf(s, t) == RoomLocked && FreeFor(s.instructorLocks, InstructorOf(jobs(t)), t)
    case CheckRoom => PhaseOf(s, t) == Locked
    case CheckInstructor => PhaseOf(s, t) == RoomChecked
    case Insert => PhaseOf(s, t) == Checked
    case Commit => PhaseOf(s, t) == Inserted
    case Abort => !Finished(PhaseOf(s, t))
  }

  function Release(locks: map<nat, TxId>, t: TxId): map<nat, TxId> {
    map id | id in locks && locks[id] != t :: locks[id]
  }

  function Acquire(locks: map<nat, TxId>, id: nat, t: TxId): map<nat, TxId> {
    if id == 0 then locks else locks[id := t]
  }

  function End(s: State, t: TxId, phase: Phase): State {
    s.(phases := s.phases[t := phase], roomLocks := Release(s.roomLocks, t),
      instructorLocks := Release(s.instructorLocks, t))
  }

  /** Each statement reads what is committed when it runs; a conflict rolls back. */
  ghost function Apply(jobs: TxId -> Job, s: State, t: TxId, a: Action): State
    requires Enabled(jobs, s, t, a)
  {
    var job := jobs(t);
    match a
    case LockRoom => s.(phases := s.phases[t := RoomLocked], roomLocks := Acquire(s.roomLocks, RoomOf(job), t))
    case LockInstructor =>
      s.(phases := s.phases[t := Locked], instructorLocks := Acquire(s.instructorLocks, InstructorOf(job), t))
    case CheckRoom =>
      if RoomPasses(job, s.committed) then s.(phases := s.phases[t := RoomChecked])
      else End(s, t, RolledBack)
    case CheckInstructor =>
      if InstructorPasses(job, s.committed) then s.(phases := s.phases[t := Checked])
      else End(s, t, RolledBack)
    case Insert => s.(phases := s.phases[t := Inserted])
    case Commit => End(s, t, Committed).(committed := s.committed + [job])
    case Abort => End(s, t, RolledBack)
  }

  /** An interleaving: steps that are not enabled are waits and change nothing. */
  ghost function Run(jobs: TxId -> Job, base: seq<Job>, steps: seq<(TxId, Action)>): State {
    if steps == [] then State(map[], map[], map[], base)
    else
      var s := Run(jobs, base, steps[..|steps| - 1]);
      var (t, a) := steps[|steps| - 1];
      if Enabled(jobs, s, t, a) then Apply(jobs, s, t, a) else s
  }

  // ----- invariants

  predicate HoldsRoom(phase: Phase) {
    1 <= Rank(phase) < 6
  }

  predicate HoldsInstructor(phase: Phase) {
    2 <= Rank(phase) < 6
  }

  /** A lock table says who holds what: exactly the transactions in `holds`, each on what it wants. */
  ghost predicate TableFits(locks: map<nat, TxId>, holds: TxId -> bool, wants: TxId -> nat) {
    && (forall id | id in locks :: id != 0 && holds(locks[id]) && wants(locks[id]) == id)
    && (forall t | holds(t) && wants(t) != 0 :: wants(t) in locks && locks[wants(t)] == t)
  }

  function RoomHolders(phases: map<TxId, Phase>): TxId -> bool {
    (t: TxId) => HoldsRoom(PhaseIn(phases, t))
  }

  function InstructorHolders(phases: map<TxId, Phase>): TxId -> bool {
    (t: TxId) => HoldsInstructor(PhaseIn(phases, t))
  }

  function RoomsWanted(jobs: TxId -> Job): TxId -> nat {
    (t: TxId) => RoomOf(jobs(t))
  }

  function InstructorsWanted(jobs: TxId -> Job): TxId -> nat {
    (t: TxId) => InstructorOf(jobs(t))
  }

  ghost predicate LocksFit(jobs: TxId -> Job, s: State) {
    && TableFits(s.roomLocks, RoomHolders(s.phases), RoomsWanted(jobs))
    && TableFits(s.instructorLocks, InstructorHolders(s.phases), InstructorsWanted(jobs))
  }

  ghost predicate RoomPasses(job: Job, committed: seq<Job>) {
    Checkable(RequestOf(job)) && RoomClear(Classes(committed), WindowFor(job), RequestOf(job))
  }

  ghost predicate InstructorPasses(job: Job, committed: seq<Job>) {
    InstructorClear(Classes(committed), WindowFor(job), RequestOf(job))
  }

  ghost predicate ChecksHold(jobs: TxId -> Job, s: State) {
    && (forall t | 3 <= Rank(PhaseOf(s, t)) < 6 :: RoomPasses(jobs(t), s.committed))
    && (forall t | 4 <= Rank(PhaseOf(s, t)) < 6 :: InstructorPasses(jobs(t), s.committed))
  }

  /** Serial order: every class committed after the first `n` passes its own check against exactly the
      classes committed before it. */
  ghost predicate Serial(committed: seq<Job>, n: nat) {
    forall j | n <= j < |committed| ::
      Passes(Classes(committed[..j]), RequestOf(committed[j]), committed[j].clock)
  }

  ghost predicate Safe(jobs: TxId -> Job, s: State, n: nat) {
    n <= |s.committed| && LocksFit(jobs, s) && ChecksHold(jobs, s) && Serial(s.committed, n)
  }

  lemma AcquireFits(locks: map<nat, TxId>, holds: TxId -> bool, holds': TxId -> bool, wants: TxId -> nat, t: TxId)
    requires TableFits(locks, holds, wants) && FreeFor(locks, wants(t), t)
    requires forall u :: holds'(u) <==> holds(u) || u == t
    ensures TableFits(Acquire(locks, wants(t), t), holds', wants)
  {
  }

  lemma ReleaseFits(locks: map<nat, TxId>, holds: TxId -> bool, holds': TxId -> bool, wants: TxId -> nat, t: TxId)
    requires TableFits(locks, holds, wants)
    requires forall u :: holds'(u) <==> holds(u) && u != t
    ensures TableFits(Release(locks, t), holds', wants)
  {
  }

  lemma SameFits(locks: map<nat, TxId>, holds: TxId -> bool, holds': TxId -> bool, wants: TxId -> nat)
    requires TableFits(locks, holds, wants)
    requires forall u :: holds'(u) <==> holds(u)
    ensures TableFits(locks, holds', wants)
  {
  }

  lemma EndKeepsLocks(jobs: TxId -> Job, s: State, t: TxId, phase: Phase)
    requires LocksFit(jobs, s) && Finished(phase)
    ensures LocksFit(jobs, End(s, t, phase))
  {
    ReleaseFits(s.roomLocks, RoomHolders(s.phases), RoomHolders(End(s, t, phase).phases), RoomsWanted(jobs), t);
    ReleaseFits(s.instructorLocks, InstructorHolders(s.phases), InstructorHolders(End(s, t, phase).phases),
      InstructorsWanted(jobs), t);
  }

  lemma RoomLockKept(jobs: TxId -> Job, s: State, t: TxId)
    requires LocksFit(jobs, s) && Enabled(jobs, s, t, LockRoom)
    ensures LocksFit(jobs, Apply(jobs, s, t, LockRoom))
  {
    var s' := Apply(jobs, s, t, LockRoom);
    AcquireFits(s.roomLocks, RoomHolders(s.phases), RoomHolders(s'.phases), RoomsWanted(jobs), t);
    SameFits(s.instructorLocks, InstructorHolders(s.phases), InstructorHolders(s'.phases), InstructorsWanted(jobs));
  }

  lemma InstructorLockKept(jobs: TxId -> Job, s: State, t: TxId)
    requires LocksFit(jobs, s) && Enabled(jobs, s, t, LockInstructor)
    ensures LocksFit(jobs, Apply(jobs, s, t, LockInstructor))
  {
    var s' := Apply(jobs, s, t, LockInstructor);
    SameFits(s.roomLocks, RoomHolders(s.phases), RoomHolders(s'.phases), RoomsWanted(jobs));
    AcquireFits(s.instructorLocks, InstructorHolders(s.phases), InstructorHolders(s'.phases),
      InstructorsWanted(jobs), t);
  }

  /** Moving on past the locks leaves them alone. */
  lemma MoveOnKeepsLocks(jobs: TxId -> Job, s: State, t: TxId, phase: Phase)
    requires LocksFit(jobs, s) && HoldsInstructor(PhaseOf(s, t)) && HoldsInstructor(phase)
    ensures LocksFit(jobs, s.(phases := s.phases[t := phase]))
  {
    var s' := s.(phases := s.phases[t := phase]);
    SameFits(s.roomLocks, RoomHolders(s.phases), RoomHolders(s'.phases), RoomsWanted(jobs));
    SameFits(s.instructorLocks, InstructorHolders(s.phases), InstructorHolders(s'.phases), InstructorsWanted(jobs));
  }

  lemma LocksKept(jobs: TxId -> Job, s: State, t: TxId, a: Action)
    requires LocksFit(jobs, s) && Enabled(jobs, s, t, a)
    ensures LocksFit(jobs, Apply(jobs, s, t, a))
  {
    match a
    case LockRoom => RoomLockKept(jobs, s, t);
    case LockInstructor => InstructorLockKept(jobs, s, t);
    case CheckRoom =>
      EndKeepsLocks(jobs, s, t, RolledBack);
      MoveOnKeepsLocks(jobs, s, t, RoomChecked);
    case CheckInstructor =>
      EndKeepsLocks(jobs, s, t, RolledBack);
      MoveOnKeepsLocks(jobs, s, t, Checked);
    case Insert => MoveOnKeepsLocks(jobs, s, t, Inserted);
    case Commit => EndKeepsLocks(jobs, s, t, Committed);
    case Abort => EndKeepsLocks(jobs, s, t, RolledBack);
  }

  /** A new class that shares neither room nor instructor with a request cannot disturb its check. */
  lemma UnrelatedIsClear(job: Job, other: Job)
    requires IsNew(other)
    ensures RoomOf(job) == 0 || RoomOf(other) != RoomOf(job) ==>
              (RoomOf(job) != 0 ==> RoomClearOf(other.class_, WindowFor(job), RequestOf(job)))
    ensures InstructorOf(job) == 0 || InstructorOf(other) != InstructorOf(job) ==>
              (InstructorOf(job) != 0 ==> InstructorClearOf(other.class_, WindowFor(job), RequestOf(job)))
  {
  }

  lemma ClassesAppend(committed: seq<Job>, job: Job)
    ensures Classes(committed + [job]) == Classes(committed) + [job.class_]
  {
  }

  /** Of two transactions past the locks, only one can want a given room or instructor. */
  lemma NoSharing(jobs: TxId -> Job, s: State, t: TxId, u: TxId)
    requires LocksFit(jobs, s) && t != u
    ensures HoldsRoom(PhaseOf(s, t)) && HoldsRoom(PhaseOf(s, u)) ==>
        RoomOf(jobs(t)) == 0 || RoomOf(jobs(t)) != RoomOf(jobs(u))
    ensures HoldsInstructor(PhaseOf(s, t)) && HoldsInstructor(PhaseOf(s, u)) ==>
              InstructorOf(jobs(t)) == 0 || InstructorOf(jobs(t)) != InstructorOf(jobs(u))
  {
    assert forall v | v in {t, u} ::
        RoomHolders(s.phases)(v) == HoldsRoom(PhaseOf(s, v)) && RoomsWanted(jobs)(v) == RoomOf(jobs(v));
    assert forall v | v in {t, u} ::
        InstructorHolders(s.phases)(v) == HoldsInstructor(PhaseOf(s, v))
          && InstructorsWanted(jobs)(v) == InstructorOf(jobs(v));
  }

  lemma UnrelatedCommitIsClear(job: Job, committed: seq<Job>, other: Job)
    requires IsNew(other)
    ensures (RoomOf(job) == 0 || RoomOf(other) != RoomOf(job)) && RoomPasses(job, committed) ==>
        RoomPasses(job, committed + [other])
    ensures (InstructorOf(job) == 0 || InstructorOf(other) != InstructorOf(job)) && InstructorPasses(job, committed) ==>
              InstructorPasses(job, committed + [other])
  {
    ClassesAppend(committed, other);
    UnrelatedIsClear(job, other);
  }

  lemma CommitKeepsCheck(jobs: TxId -> Job, s: State, u: TxId, t: TxId)
    requires LocksFit(jobs, s) && ChecksHold(jobs, s) && PhaseOf(s, u) == Inserted && IsNew(jobs(u))
    requires t != u && 3 <= Rank(PhaseOf(s, t)) < 6
    ensures RoomPasses(jobs(t), s.committed + [jobs(u)])
    ensures 4 <= Rank(PhaseOf(s, t)) ==> InstructorPasses(jobs(t), s.committed + [jobs(u)])
  {
    NoSharing(jobs, s, t, u);
    UnrelatedCommitIsClear(jobs(t), s.committed, jobs(u));
  }

  lemma CommitKeepsChecks(jobs: TxId -> Job, s: State, u: TxId)
    requires LocksFit(jobs, s) && ChecksHold(jobs, s) && Enabled(jobs, s, u, Commit) && IsNew(jobs(u))
    ensures ChecksHold(jobs, Apply(jobs, s, u, Commit))
  {
    var s' := Apply(jobs, s, u, Commit);
    assert s'.committed == s.committed + [jobs(u)];
    forall t
      ensures 3 <= Rank(PhaseOf(s', t)) < 6 ==> RoomPasses(jobs(t), s'.committed)
      ensures 4 <= Rank(PhaseOf(s', t)) < 6 ==> InstructorPasses(jobs(t), s'.committed)
    {
      assert PhaseOf(s', t) == if t == u then Committed else PhaseOf(s, t);
      if t != u && 3 <= Rank(PhaseOf(s, t)) < 6 {
        CommitKeepsCheck(jobs, s, u, t);
      }
    }
  }

  lemma OtherStepsKeepChecks(jobs: TxId -> Job, s: State, t: TxId, a: Action)
    requires ChecksHold(jobs, s) && Enabled(jobs, s, t, a) && a != Commit
    ensures ChecksHold(jobs, Apply(jobs, s, t, a)) && Apply(jobs, s, t, a).committed == s.committed
  {
  }

  lemma CommitKeepsSerial(committed: seq<Job>, n: nat, job: Job)
    requires n <= |committed| && Serial(committed, n) && Passes(Classes(committed), RequestOf(job), job.clock)
    ensures Serial(committed + [job], n)
  {
    var longer := committed + [job];
    forall j | n <= j < |longer|
      ensures Passes(Classes(longer[..j]), RequestOf(longer[j]), longer[j].clock)
    {
      assert longer[..j] == committed[..j];
      assert committed[..|committed|] == committed;
    }
  }

  lemma StepKeepsSafe(jobs: TxId -> Job, s: State, n: nat, t: TxId, a: Action)
    requires Safe(jobs, s, n) && Enabled(jobs, s, t, a) && IsNew(jobs(t))
    ensures Safe(jobs, Apply(jobs, s, t, a), n)
  {
    LocksKept(jobs, s, t, a);
    if a == Commit {
      CommitKeepsChecks(jobs, s, t);
      CommitKeepsSerial(s.committed, n, jobs(t));
    } else {
      OtherStepsKeepChecks(jobs, s, t, a);
    }
  }

  /** Every interleaving of any number of creations commits classes as some serial order would. */
  lemma {:induction false} EveryInterleavingIsSafe(jobs: TxId -> Job, base: seq<Job>, steps: seq<(TxId, Action)>)
    requires forall t :: IsNew(jobs(t))
    ensures Safe(jobs, Run(jobs, base, steps), |base|)
  {
    if steps != [] {
      EveryInterleavingIsSafe(jobs, base, steps[..|steps| - 1]);
      var s := Run(jobs, base, steps[..|steps| - 1]);
      var (t, a) := steps[|steps| - 1];
      if Enabled(jobs, s, t, a) {
        StepKeepsSafe(jobs, s, |base|, t, a);
      }
    }
  }

  // ----- no double booking

  ghost predicate Shares(keep: nat -> Session -> bool, id: nat, session: Session) {
    id != 0 && keep(id)(session)
  }

  /** A session of the class that the check of a request must look at: in the requested room, or by
      the requested instructor. */
  ghost predicate InWay(c: Class, job: Job, session: Session) {
    && c.facilityId == job.class_.facilityId
    && Expandable(c.event)
    && session in Sessions(c.event, WindowFor(job).rangeStart, WindowFor(job).rangeEnd)
    && ((c.event.room.Some? && Shares(InRoom, RoomOf(job), session))
        || Shares(ByInstructor, InstructorOf(job), session))
  }

  lemma ClearOfSession(c: Class, w: Window, req: Request, occ: int, session: Session)
    requires req.roomId != 0 ==> RoomClearOf(c, w, req)
    requires req.instructorId != 0 ==> InstructorClearOf(c, w, req)
    requires c.facilityId == req.facilityId && req.excludeEventId.None? && req.excludeClassId.None?
    requires Expandable(c.event) && session in Sessions(c.event, w.rangeStart, w.rangeEnd) && occ in w.occurrences
    requires (c.event.room.Some? && Shares(InRoom, req.roomId, session))
        || Shares(ByInstructor, req.instructorId, session)
    ensures !HasLocalTimeOverlap(occ, occ + w.duration, session.start, session.end)
  {
    SessionMentions(c.event, w.rangeStart, w.rangeEnd, session);
    if c.event.room.Some? && Shares(InRoom, req.roomId, session) {
      ClearMeansNoOverlap(c.event, w, req, InRoom(req.roomId), occ, session);
    } else {
      ClearMeansNoOverlap(c.event, w, req, ByInstructor(req.instructorId), occ, session);
    }
  }

  lemma ClearMeansNoOverlap(event: Event, w: Window, req: Request, keep: Session -> bool, occ: int, session: Session)
    requires ClearOf(event, w, req, keep) && req.excludeEventId.None? && req.excludeClassId.None?
    requires occ in w.occurrences && keep(session) && session in Sessions(event, w.rangeStart, w.rangeEnd)
    ensures !HasLocalTimeOverlap(occ, occ + w.duration, session.start, session.end)
  {
    assert !Clashes(w, req, occ, Book(event, true)(session));
  }

  lemma SerialHasNoOverlap(committed: seq<Job>, n: nat, i: nat, j: nat, occ: int, session: Session)
    requires Serial(committed, n) && i < j < |committed| && n <= j
    requires occ in WindowFor(committed[j]).occurrences && InWay(committed[i].class_, committed[j], session)
    ensures !HasLocalTimeOverlap(occ, occ + WindowFor(committed[j]).duration, session.start, session.end)
  {
    assert Classes(committed[..j])[i] == committed[i].class_;
    ClearOfSession(committed[i].class_, WindowFor(committed[j]), RequestOf(committed[j]), occ, session);
  }

  lemma {:induction false} CommittedAreNew(jobs: TxId -> Job, base: seq<Job>, steps: seq<(TxId, Action)>)
    requires forall t :: IsNew(jobs(t))
    ensures var committed := Run(jobs, base, steps).committed;
            |base| <= |committed| && forall j | |base| <= j < |committed| :: IsNew(committed[j])
  {
    if steps != [] {
      CommittedAreNew(jobs, base, steps[..|steps| - 1]);
    }
  }

  /** A session of the class in the window that its own rule is checked in. */
  predicate InOwnWindow(job: Job, session: Session) {
    Expandable(job.class_.event)
      && session in Sessions(job.class_.event, WindowFor(job).rangeStart, WindowFor(job).rangeEnd)
  }

  /** The sessions of a new class in its window are the occurrences that are checked. */
  lemma NewSessions(job: Job, session: Session)
    requires IsNew(job) && InOwnWindow(job, session)
    ensures session.start in WindowFor(job).occurrences && session.end == session.start + WindowFor(job).duration
  {
    var event, w := job.class_.event, WindowFor(job);
    var times := UntouchedTimes(event, w.rangeStart, w.rangeEnd);
    assert OverrideSessions(event, event.overrides, w.rangeStart, w.rangeEnd) == [];
    var k :| 0 <= k < |times| && Map(times, BaseSessionAt(event))[k] == session;
    assert session == BaseSession(event, times[k]) && times[k] in times;
  }

  ghost predicate Apart(a: Session, b: Session) {
    && !HasLocalTimeOverlap(a.start, a.end, b.start, b.end)
    && (OnOneDay(a.start, a.end) && OnOneDay(b.start, b.end) ==> !Intersect(a.start, a.end, b.start, b.end))
  }

  lemma NoOverlapIsApart(a: Session, b: Session)
    requires !HasLocalTimeOverlap(a.start, a.end, b.start, b.end)
    ensures Apart(a, b)
  {
    if OnOneDay(a.start, a.end) && OnOneDay(b.start, b.end) {
      OverlapIsIntersection(a.start, a.end, b.start, b.end);
    }
  }

  /** The session of a class of the facility is in the room, or by the instructor, that a new event wants. */
  ghost predicate Competes(c: Class, wanted: Event, facilityId: nat, session: Session) {
    && c.facilityId == facilityId
    && (|| (c.event.room.Some? && wanted.room.Some? && wanted.room.value != 0 && session.room == wanted.room)
        || (wanted.instructor.Some? && wanted.instructor.value != 0 && session.instructor == wanted.instructor))
  }

  lemma PairIsApart(
    committed: seq<Job>, n: nat, i: nat, j: nat, first: int, last: int, earlier: Session, later: Session)
    requires Serial(committed, n) && i < j < |committed| && n <= j && IsNew(committed[j])
    requires Expandable(committed[i].class_.event) && Expandable(committed[j].class_.event)
    requires IsChecked(committed[j].class_.event.rule.value, committed[j].clock, first, last)
    requires earlier in Sessions(committed[i].class_.event, first, last)
    requires later in Sessions(committed[j].class_.event, first, last)
    requires Competes(committed[i].class_, committed[j].class_.event, committed[j].class_.facilityId, earlier)
    ensures Apart(later, earlier)
  {
    var event := committed[j].class_.event;
    WindowExactly(event.rule.value, event.duration.value, committed[j].clock, first, last);
    NewSessions(committed[j], later);
    SerialHasNoOverlap(committed, n, i, j, later.start, earlier);
    NoOverlapIsApart(later, earlier);
  }

  /** No session of a class committed later overlaps a session of an earlier class of the facility in the
      room or by the instructor of the later one, both taken in the range in which the later one is checked. */
  lemma NoDoubleBooking(
    jobs: TxId -> Job, base: seq<Job>, steps: seq<(TxId, Action)>, committed: seq<Job>, i: nat, j: nat,
    first: int, last: int, earlier: Session, later: Session)
    requires forall t :: IsNew(jobs(t))
    requires committed == Run(jobs, base, steps).committed && i < j < |committed| && |base| <= j
    requires Expandable(committed[i].class_.event) && Expandable(committed[j].class_.event)
    requires IsChecked(committed[j].class_.event.rule.value, committed[j].clock, first, last)
    requires earlier in Sessions(committed[i].class_.event, first, last)
    requires later in Sessions(committed[j].class_.event, first, last)
    requires Competes(committed[i].class_, committed[j].class_.event, committed[j].class_.facilityId, earlier)
    ensures Apart(later, earlier)
  {
    EveryInterleavingIsSafe(jobs, base, steps);
    CommittedAreNew(jobs, base, steps);
    PairIsApart(committed, |base|, i, j, first, last, earlier, later);
  }

  /** The queries select every event that has a session in the room or by the instructor. */
  lemma SessionMentions(event: Event, first: int, last: int, session: Session)
    requires Expandable(event) && session in Sessions(event, first, last)
    ensures session.room.Some? ==> MentionsRoom(event, session.room.value)
    ensures session.instructor.Some? ==> MentionsInstructor(event, session.instructor.value)
  {
    if session !in Map(UntouchedTimes(event, first, last), BaseSessionAt(event)) {
      OverrideSessionMentions(event, event.overrides, first, last, session);
    }
  }

  lemma {:induction false} OverrideSessionMentions(event: Event, overrides: seq<Override>, first: int, last: int,
      session: Session)
    requires Expandable(event) && session in OverrideSessions(event, overrides, first, last)
    ensures exists o ::
        o in overrides && session.room == OrElse(o.room, event.room)
          && session.instructor == OrElse(o.instructor, event.instructor)
  {
    var init := overrides[..|overrides| - 1];
    var o := overrides[|overrides| - 1];
    if session in OverrideSessions(event, init, first, last) {
      OverrideSessionMentions(event, init, first, last, session);
    } else {
      assert session in Map(TimesBetween(o.rule, first, last), OverrideSessionAt(event, o));
    }
  }

  // ----- no deadlock

  predicate WaitsFor(jobs: TxId -> Job, s: State, t: TxId, u: TxId) {
    || (PhaseOf(s, t) == Begun && !FreeFor(s.roomLocks, RoomOf(jobs(t)), t) && s.roomLocks[RoomOf(jobs(t))] == u)
    || (PhaseOf(s, t) == RoomLocked && !FreeFor(s.instructorLocks, InstructorOf(jobs(t)), t)
        && s.instructorLocks[InstructorOf(jobs(t))] == u)
  }

  /** Some step forward, other than giving up, is enabled. */
  ghost predicate CanAdvance(jobs: TxId -> Job, s: State, t: TxId) {
    exists a :: a != Abort && Enabled(jobs, s, t, a)
  }

  lemma UnfinishedAdvancesOrWaits(jobs: TxId -> Job, s: State, t: TxId)
    requires !Finished(PhaseOf(s, t))
    ensures CanAdvance(jobs, s, t) || exists u :: WaitsFor(jobs, s, t, u)
  {
    match PhaseOf(s, t)
    case Begun =>
      if Enabled(jobs, s, t, LockRoom) {
      } else {
        assert WaitsFor(jobs, s, t, s.roomLocks[RoomOf(jobs(t))]);
      }
    case RoomLocked =>
      if Enabled(jobs, s, t, LockInstructor) {
      } else {
        assert WaitsFor(jobs, s, t, s.instructorLocks[InstructorOf(jobs(t))]);
      }
    case Locked => assert Enabled(jobs, s, t, CheckRoom);
    case RoomChecked => assert Enabled(jobs, s, t, CheckInstructor);
    case Checked => assert Enabled(jobs, s, t, Insert);
    case Inserted => assert Enabled(jobs, s, t, Commit);
  }

  /** A transaction only waits for one that is further on: room locks come before instructor locks. */
  lemma WaitingClimbs(jobs: TxId -> Job, s: State, t: TxId, u: TxId)
    requires LocksFit(jobs, s) && WaitsFor(jobs, s, t, u)
    ensures Rank(PhaseOf(s, t)) < Rank(PhaseOf(s, u)) < 6
  {
  }

  ghost predicate WaitPath(jobs: TxId -> Job, s: State, p: seq<TxId>) {
    p != [] && forall k | 0 <= k < |p| - 1 :: WaitsFor(jobs, s, p[k], p[k + 1])
  }

  lemma {:induction false} WaitPathClimbs(jobs: TxId -> Job, s: State, p: seq<TxId>)
    requires LocksFit(jobs, s) && WaitPath(jobs, s, p) && |p| > 1
    ensures Rank(PhaseOf(s, p[0])) < Rank(PhaseOf(s, p[|p| - 1]))
    decreases |p|
  {
    WaitingClimbs(jobs, s, p[|p| - 2], p[|p| - 1]);
    if |p| > 2 {
      WaitPathClimbs(jobs, s, p[..|p| - 1]);
    }
  }

  /** In no reachable state do transactions wait for each other in a circle ... */
  lemma NoWaitCycle(jobs: TxId -> Job, base: seq<Job>, steps: seq<(TxId, Action)>, p: seq<TxId>)
    requires forall t :: IsNew(jobs(t))
    requires WaitPath(jobs, Run(jobs, base, steps), p) && |p| > 1
    ensures p[0] != p[|p| - 1]
  {
    EveryInterleavingIsSafe(jobs, base, steps);
    WaitPathClimbs(jobs, Run(jobs, base, steps), p);
  }

  /** ... and behind every unfinished transaction, at most two waits away, one can go on. */
  lemma SomeoneCanAlwaysAdvance(jobs: TxId -> Job, base: seq<Job>, steps: seq<(TxId, Action)>, t: TxId)
      returns (p: seq<TxId>)
    requires forall u :: IsNew(jobs(u))
    requires !Finished(PhaseOf(Run(jobs, base, steps), t))
    ensures WaitPath(jobs, Run(jobs, base, steps), p) && p[0] == t && |p| <= 3
    ensures CanAdvance(jobs, Run(jobs, base, steps), p[|p| - 1])
  {
    EveryInterleavingIsSafe(jobs, base, steps);
    var s := Run(jobs, base, steps);
    p := [t];
    while !CanAdvance(jobs, s, p[|p| - 1])
      invariant 0 < |p| <= 3 && p[0] == t && WaitPath(jobs, s, p)
      invariant |p| - 1 <= Rank(PhaseOf(s, p[|p| - 1])) < 6
      decreases 6 - Rank(PhaseOf(s, p[|p| - 1]))
    {
      var last := p[|p| - 1];
      UnfinishedAdvancesOrWaits(jobs, s, last);
      var u :| WaitsFor(jobs, s, last, u);
      WaitingClimbs(jobs, s, last, u);
      assert Rank(PhaseOf(s, last)) <= 1;
      p := p + [u];
    }
  }

  // ----- one creation on its own

  class Creations {
    var committed: seq<Job>

    constructor (base: seq<Job>)
      ensures committed == base
    {
      committed := base;
    }

    /** A class that does not validate is refused, and so is one that the insert or the commit fails on.
        Without a conflict request a class is stored unchecked. With one, it is stored exactly when
        the check against the stored classes finds nothing, and then the serial order is kept. */
    method CreateProgramClass(content: Job, checked: bool, valid: bool, inserts: bool, names: map<nat, string>)
      returns (conflicts: Result<seq<Conflict>>)
      modifies this
      ensures conflicts == Ok([]) <==>
                valid && inserts && (checked ==> Passes(Classes(old(committed)), RequestOf(content), content.clock))
      ensures committed == if conflicts == Ok([]) then old(committed) + [content] else old(committed)
      ensures forall n: nat | n <= |old(committed)| && old(Serial(committed, n)) && checked :: Serial(committed, n)
    {
      if !valid {
        return Err;
      }
      conflicts := Ok([]);
      if checked {
        conflicts := CheckConflicts(Classes(committed), RequestOf(content), content.clock, names);
      }
      if conflicts == Ok([]) {
        if !inserts {
          return Err;
        }
        ghost var before := committed;
        committed := committed + [content];
        forall n: nat | n <= |before| && Serial(before, n) && checked
          ensures Serial(committed, n)
        {
          CommitKeepsSerial(before, n, content);
        }
      }
    }
  }
}
