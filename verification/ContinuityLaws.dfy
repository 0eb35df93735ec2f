/** Learners keep a course they have started without a gap, up to the end of its grace, and no longer. */
module ContinuityLaws {
  import opened Wrappers
  import opened Sorting
  import opened CourseAccess
  import opened MembershipContinuity

  // ----- Which courses are removed, and with what grace

  ghost predicate DistinctCourses(included: seq<Included>) {
    forall i, j :: 0 <= i < j < |included| ==> included[i].courseId != included[j].courseId
  }

  /** The learner has a progress row in the course that shows anything done: underway, some percentage, time watched, part
    of a document read, or an access. */
  ghost predicate Began(activity: seq<Activity>, learner: nat, courseId: nat) {
    exists a <- activity ::
      && a.userId == learner && a.courseId == courseId
      && (a.underway || a.percent >= 1 || a.watched >= 1 || a.documentPercent >= 1 || a.accessed)
  }

  ghost predicate LeavesOut(target: Version, courseId: nat) {
    forall t <- target.included :: t.courseId != courseId
  }

  lemma BeganIff(activity: seq<Activity>, learner: nat, courseId: nat)
    ensures HasStarted(activity, learner, courseId) <==> Began(activity, learner, courseId)
  {
    if a :| a in activity && a.userId == learner && a.courseId == courseId && ShowsActivity(a) {
      assert a.underway || a.percent >= 1 || a.watched >= 1 || a.documentPercent >= 1 || a.accessed;
    }
  }

  /** What is recorded for a removed course: a grace from the end of the term, if it was started,
      the term is still running and the plan gives days of grace; otherwise none. */
  ghost predicate RecordedFor(r: Removed, item: Included, activity: seq<Activity>, learner: nat, termEndsAt: Option<int>, at: int) {
    && r.courseId == item.courseId && r.graceDays == item.graceDays
    && (r.started <==> Began(activity, learner, item.courseId))
    && if r.started && item.graceDays > 0 && termEndsAt.Some? && at < termEndsAt.value
       then r.graceStartsAt == termEndsAt && r.graceEndsAt == Some(termEndsAt.value + item.graceDays * 86_400_000)
       else r.graceStartsAt.None? && r.graceEndsAt.None?
  }

  lemma {:induction false} MapMembers<T(!new), U(!new)>(s: seq<T>, f: T -> U)
    ensures forall y :: y in Map(s, f) <==> exists x <- s :: f(x) == y
  {
    if s != [] {
      MapMembers(s[1..], f);
      assert Map(s, f)[1..] == Map(s[1..], f);
      assert forall x :: x in s <==> x == s[0] || x in s[1..];
      assert forall y :: y in Map(s, f) <==> y == f(s[0]) || y in Map(s[1..], f);
    }
  }

  /** A change of version records exactly the courses of the current version that the target leaves out. */
  lemma RemovedExactly(activity: seq<Activity>, learner: nat, current: Version, target: Version, termEndsAt: Option<int>, at: int)
    requires current.id != target.id
    ensures var removed := ResolveRemovedCourses(activity, learner, Some(current), target, termEndsAt, at);
            && (forall item <- current.included :: LeavesOut(target, item.courseId) ==>
                exists r <- removed :: RecordedFor(r, item, activity, learner, termEndsAt, at))
            && (forall r <- removed :: exists item <- current.included :: LeavesOut(target, item.courseId) && RecordedFor(r, item, activity, learner, termEndsAt, at))
  {
    var kept := Select(current.included, LeftOut(target));
    var f := RemovedItem(activity, learner, termEndsAt, at);
    MapMembers(kept, f);
    forall item: Included ensures RecordedFor(f(item), item, activity, learner, termEndsAt, at) {
      BeganIff(activity, learner, item.courseId);
      assert After(termEndsAt, at) <==> termEndsAt.Some? && at < termEndsAt.value;
    }
    assert forall item: Included :: LeftOut(target)(item) <==> LeavesOut(target, item.courseId);
    hide RecordedFor, Select, Map, LeavesOut;
    var removed := ResolveRemovedCourses(activity, learner, Some(current), target, termEndsAt, at);
    assert removed == Map(kept, f);
    forall item <- current.included | LeavesOut(target, item.courseId)
      ensures exists r <- removed :: RecordedFor(r, item, activity, learner, termEndsAt, at)
    {
      assert item in kept;
      assert f(item) in removed;
    }
  }

  // ----- Snapshots

  predicate OnRecord(snapshots: seq<Snapshot>, intentId: nat, courseId: nat) {
    exists x <- snapshots :: x.intentId == intentId && x.removed.courseId == courseId
  }

  ghost predicate IdsUnique(snapshots: seq<Snapshot>) {
    forall x, y :: x in snapshots && y in snapshots && x.id == y.id ==> x == y
  }

  /** The next `n` row ids to be drawn are new and distinct. */
  ghost predicate FreshIds(snapshots: seq<Snapshot>, ids: nat -> string, n: nat) {
    && (forall a: nat, b: nat :: |snapshots| <= a < b < |snapshots| + n ==> ids(a) != ids(b))
    && (forall x, a: nat :: x in snapshots && |snapshots| <= a < |snapshots| + n ==> x.id != ids(a))
  }

  /** A row recorded for one of these courses, with one of the next ids. */
  ghost predicate RowFor(x: Snapshot, ids: nat -> string, from: nat, intentId: nat, learner: nat, removed: seq<Removed>) {
    && x.intentId == intentId && x.userId == learner && x.removed in removed
    && exists n: nat :: from <= n < from + |removed| && x.id == ids(n)
  }

  /** Each removed course ends up in one snapshot of the intent. */
  lemma {:induction false} PersistRecords(snapshots: seq<Snapshot>, ids: nat -> string, intentId: nat, learner: nat, removed: seq<Removed>)
    requires forall i, j :: 0 <= i < j < |removed| ==> removed[i].courseId != removed[j].courseId
    requires forall r <- removed :: !OnRecord(snapshots, intentId, r.courseId)
    ensures var after := PersistSnapshots(snapshots, ids, intentId, learner, removed);
            && snapshots <= after
            && (forall r <- removed :: exists x <- after :: x.intentId == intentId && x.userId == learner && x.removed == r)
            && (forall x <- after :: x in snapshots || RowFor(x, ids, |snapshots|, intentId, learner, removed))
            && (IdsUnique(snapshots) && FreshIds(snapshots, ids, |removed|) ==> IdsUnique(after))
    decreases |removed|
  {
    if removed != [] {
      assert removed[0] in removed;
      assert !OnRecord(snapshots, intentId, removed[0].courseId);
      var row := Snapshot(ids(|snapshots|), intentId, learner, removed[0]);
      var longer := snapshots + [row];
      if IdsUnique(snapshots) && FreshIds(snapshots, ids, |removed|) {
        AppendFresh(snapshots, ids, row, |removed| - 1);
      }
      var rest := removed[1..];
      forall r <- rest ensures !OnRecord(longer, intentId, r.courseId) {
        var j :| 0 <= j < |rest| && rest[j] == r;
        assert removed[j + 1] == r && r in removed;
      }
      PersistRecords(longer, ids, intentId, learner, rest);
      var after := PersistSnapshots(longer, ids, intentId, learner, rest);
      assert row in longer && row in after;
      hide FreshIds, IdsUnique, PersistSnapshots, OnRecord;
      assert after == PersistSnapshots(snapshots, ids, intentId, learner, removed) by {
        NothingYet(snapshots, ids, intentId, learner, removed);
      }
      forall r <- removed ensures exists x <- after :: x.intentId == intentId && x.userId == learner && x.removed == r {
        if r != removed[0] {
          assert r in rest;
        }
      }
      forall x <- after ensures x in snapshots || RowFor(x, ids, |snapshots|, intentId, learner, removed) {
        assert x in longer ==> x in snapshots || x == row;
        assert forall r <- rest :: r in removed;
      }
    }
  }

  lemma NothingYet(snapshots: seq<Snapshot>, ids: nat -> string, intentId: nat, learner: nat, removed: seq<Removed>)
    requires removed != [] && !OnRecord(snapshots, intentId, removed[0].courseId)
    ensures PersistSnapshots(snapshots, ids, intentId, learner, removed)
         == PersistSnapshots(snapshots + [Snapshot(ids(|snapshots|), intentId, learner, removed[0])], ids, intentId, learner, removed[1..])
  {
  }

  lemma AppendFresh(snapshots: seq<Snapshot>, ids: nat -> string, row: Snapshot, n: nat)
    requires IdsUnique(snapshots) && FreshIds(snapshots, ids, n + 1) && row.id == ids(|snapshots|)
    ensures IdsUnique(snapshots + [row]) && FreshIds(snapshots + [row], ids, n)
  {
    var longer := snapshots + [row];
    assert forall x :: x in longer <==> x in snapshots || x == row;
  }

  // ----- Activation

  lemma DueMembers(snapshots: seq<Snapshot>, intentId: nat)
    ensures forall x :: x in DueSnapshots(snapshots, intentId) <==> x in snapshots && Due(intentId)(x)
  {
    SortMembers(snapshots, ByCourse);
  }

  lemma {:induction false} GrantAllGrows(s: Store, due: seq<Snapshot>)
    ensures s.grants <= GrantAll(s, due).0.grants
    ensures (forall x <- due :: ValidInput(GraceInput(x))) ==> GrantAll(s, due).1.Success?
    decreases |due|
  {
    if due != [] {
      var (s1, r) := EnsureGrant(s, GraceInput(due[0]));
      assert due[0] in due;
      if r.Success? {
        GrantAllGrows(s1, due[1..]);
      }
    }
  }

  /** Every due snapshot whose grant is not there yet gets an active grant with its dates. */
  lemma {:induction false} GrantAllGrants(s: Store, due: seq<Snapshot>, x: Snapshot)
    requires x in due && forall y <- due :: ValidInput(GraceInput(y))
    requires forall y <- due :: y.id == x.id ==> y == x
    requires forall g <- s.grants :: !HasKey(g, x.userId, x.removed.courseId, MembershipGrace, x.id)
    ensures exists g <- GrantAll(s, due).0.grants :: g == NewGrant(g.id, GraceInput(x))
    decreases |due|
  {
    var s1 := EnsureGrant(s, GraceInput(due[0])).0;
    assert due[0] in due;
    GrantAllGrows(s1, due[1..]);
    if due[0] == x {
      var g := NewGrant(|s.grants|, GraceInput(x));
      assert s1.grants == s.grants + [g];
      assert g in s1.grants && g in GrantAll(s1, due[1..]).0.grants;
    } else {
      assert x in due[1..];
      assert forall y <- due[1..] :: y in due;
      GrantAllGrants(s1, due[1..], x);
    }
  }

  // ----- Runs without revocation

  datatype Op =
    | EnsureOp(input: GrantInput)
    | RevokeOp(userId: nat, courseId: nat, source: SourceType, sourceId: string, reason: string)
    | StripOp(userId: nat, courseId: nat)
    | CatalogOp(users: map<nat, bool>, courses: map<nat, Course>, lessons: map<nat, set<nat>>)

  function Step(s: Store, op: Op): Store {
    match op
    case EnsureOp(input) => EnsureGrant(s, input).0
    case RevokeOp(userId, courseId, source, sourceId, reason) => RevokeGrant(s, userId, courseId, source, sourceId, reason).0
    case StripOp(userId, courseId) => s.(grants := Strip(s.grants, userId, courseId))
    case CatalogOp(users, courses, lessons) => s.(users := users, courses := courses, lessons := lessons)
  }

  function Run(s: Store, ops: seq<Op>): Store
    decreases |ops|
  {
    if ops == [] then s else Run(Step(s, ops[0]), ops[1..])
  }

  /** The operation revokes nothing of this learner and course. */
  predicate LeavesAlone(op: Op, userId: nat, courseId: nat) {
    (op.RevokeOp? || op.StripOp?) ==> op.userId != userId || op.courseId != courseId
  }

  lemma StepKeepsRow(s: Store, op: Op, g: Grant)
    requires g in s.grants && LeavesAlone(op, g.userId, g.courseId)
    ensures g in Step(s, op).grants
  {
    var k :| 0 <= k < |s.grants| && s.grants[k] == g;
    var after := Step(s, op).grants;
    assert k < |after| && after[k] == g;
  }

  lemma {:induction false} RunKeepsRow(s: Store, ops: seq<Op>, g: Grant)
    requires g in s.grants && forall op <- ops :: LeavesAlone(op, g.userId, g.courseId)
    ensures g in Run(s, ops).grants
    decreases |ops|
  {
    hide Step;
    if ops != [] {
      assert ops[0] in ops;
      StepKeepsRow(s, ops[0], g);
      RunKeepsRow(Step(s, ops[0]), ops[1..], g);
    }
  }

  // ----- No gap, and no more than the grace

  /** A change of version, checked out at `at` while the old term runs until `termEnd`. */
  datatype VersionChange = VersionChange(activity: seq<Activity>, learner: nat, current: Version, target: Version, termEnd: int, at: int)

  function RemovedBy(c: VersionChange): seq<Removed> {
    ResolveRemovedCourses(c.activity, c.learner, Some(c.current), c.target, Some(c.termEnd), c.at)
  }

  /** A started course with days of grace that the change leaves out. */
  ghost predicate LosesCourse(c: VersionChange, item: Included) {
    && c.current.id != c.target.id && DistinctCourses(c.current.included) && item in c.current.included && LeavesOut(c.target, item.courseId)
    && Began(c.activity, c.learner, item.courseId) && item.graceDays > 0 && c.at < c.termEnd
  }

  function GraceEnd(c: VersionChange, item: Included): int {
    c.termEnd + item.graceDays * MS_PER_DAY
  }

  /** The membership grant the learner holds until the end of the term. */
  predicate TermGrant(g: Grant, learner: nat, courseId: nat, termEnd: int) {
    && g.userId == learner && g.courseId == courseId && g.source == Membership && g.active
    && g.endsAt == Some(termEnd) && g.graceEndsAt.None?
  }

  /** The row ids the change will draw are new to the snapshots, fit a grant, and are used by no grace grant yet. */
  ghost predicate UnusedIds(c: VersionChange, snapshots: seq<Snapshot>, grants: seq<Grant>, ids: nat -> string) {
    && IdsUnique(snapshots) && FreshIds(snapshots, ids, |RemovedBy(c)|)
    && (forall n: nat :: |snapshots| <= n < |snapshots| + |RemovedBy(c)| ==> 1 <= |ids(n)| <= 128)
    && (forall g, n: nat :: g in grants && g.source == MembershipGrace && |snapshots| <= n < |snapshots| + |RemovedBy(c)| ==> g.sourceId != ids(n))
  }

  /** The checkout is the first to be recorded under its intent. */
  ghost predicate NewIntent(snapshots: seq<Snapshot>, intentId: nat) {
    forall x <- snapshots :: x.intentId != intentId
  }

  lemma RemovedDistinct(activity: seq<Activity>, learner: nat, current: Version, target: Version, termEndsAt: Option<int>, at: int)
    requires DistinctCourses(current.included)
    ensures var removed := ResolveRemovedCourses(activity, learner, Some(current), target, termEndsAt, at);
            forall i, j :: 0 <= i < j < |removed| ==> removed[i].courseId != removed[j].courseId
  {
    var kept := Select(current.included, LeftOut(target));
    var f := RemovedItem(activity, learner, termEndsAt, at);
    SelectPairs(current.included, LeftOut(target), DifferentCourses());
    forall i, j | 0 <= i < j < |kept| ensures Map(kept, f)[i].courseId != Map(kept, f)[j].courseId {
      assert DifferentCourses()(kept[i], kept[j]);
      MapAt(kept, f, i);
      MapAt(kept, f, j);
    }
  }

  function DifferentCourses(): (Included, Included) -> bool { (a: Included, b: Included) => a.courseId != b.courseId }

  lemma {:induction false} MapAt<T(!new), U(!new)>(s: seq<T>, f: T -> U, i: nat)
    requires i < |s|
    ensures Map(s, f)[i] == f(s[i])
  {
    if i > 0 {
      MapAt(s[1..], f, i - 1);
    }
  }

  /** A row of the intent has one of these ids, and a grace that ends after it starts. */
  ghost predicate ProperRow(x: Snapshot, ids: nat -> string, from: nat, n: nat) {
    && (exists k: nat :: from <= k < from + n && x.id == ids(k))
    && (x.removed.graceStartsAt.Some? && x.removed.graceEndsAt.Some? ==> x.removed.graceStartsAt.value < x.removed.graceEndsAt.value)
  }

  lemma RemovedProper(c: VersionChange, r: Removed)
    requires c.current.id != c.target.id && r in RemovedBy(c)
    ensures r.graceStartsAt.Some? && r.graceEndsAt.Some? ==> r.graceStartsAt.value < r.graceEndsAt.value
  {
    RemovedExactly(c.activity, c.learner, c.current, c.target, Some(c.termEnd), c.at);
    hide ResolveRemovedCourses, Began;
    var item :| item in c.current.included && LeavesOut(c.target, item.courseId) && RecordedFor(r, item, c.activity, c.learner, Some(c.termEnd), c.at);
  }

  lemma RemovedLost(c: VersionChange, item: Included) returns (r: Removed)
    requires LosesCourse(c, item)
    ensures r in RemovedBy(c) && r.courseId == item.courseId
    ensures r.graceStartsAt == Some(c.termEnd) && r.graceEndsAt == Some(GraceEnd(c, item))
  {
    RemovedExactly(c.activity, c.learner, c.current, c.target, Some(c.termEnd), c.at);
    hide ResolveRemovedCourses, Began;
    r :| r in RemovedBy(c) && RecordedFor(r, item, c.activity, c.learner, Some(c.termEnd), c.at);
  }

  /** The snapshot of a lost course, with its grace. */
  lemma LostCourseOnRecord(c: VersionChange, item: Included, snapshots: seq<Snapshot>, ids: nat -> string, intentId: nat) returns (x: Snapshot)
    requires LosesCourse(c, item) && NewIntent(snapshots, intentId)
    ensures var after := PersistSnapshots(snapshots, ids, intentId, c.learner, RemovedBy(c));
            && x in after && x.intentId == intentId && x.userId == c.learner && x.removed.courseId == item.courseId
            && x.removed.graceStartsAt == Some(c.termEnd) && x.removed.graceEndsAt == Some(GraceEnd(c, item))
            && (forall y <- after :: y.intentId == intentId ==> ProperRow(y, ids, |snapshots|, |RemovedBy(c)|))
            && (IdsUnique(snapshots) && FreshIds(snapshots, ids, |RemovedBy(c)|) ==> IdsUnique(after))
  {
    var removed := RemovedBy(c);
    RemovedDistinct(c.activity, c.learner, c.current, c.target, Some(c.termEnd), c.at);
    var r := RemovedLost(c, item);
    hide RemovedBy, FreshIds, IdsUnique, PersistSnapshots, LosesCourse;
    PersistRecords(snapshots, ids, intentId, c.learner, removed);
    var after := PersistSnapshots(snapshots, ids, intentId, c.learner, removed);
    x :| x in after && x.intentId == intentId && x.userId == c.learner && x.removed == r;
    forall y <- after | y.intentId == intentId ensures ProperRow(y, ids, |snapshots|, |removed|) {
      assert y !in snapshots;
      assert RowFor(y, ids, |snapshots|, intentId, c.learner, removed);
      RemovedProper(c, y.removed);
    }
  }

  /** After the change of version has been activated, and while nothing of the learner and course is revoked:
      a started course that has days of grace stays open at every instant from the held grant's start up to the end of
      the grace, and from then on neither the held grant nor the grace grant opens it. */
  lemma GaplessContinuity(c: VersionChange, item: Included, snapshots: seq<Snapshot>, ids: nat -> string, intentId: nat,
                          s: Store, held: Grant, ops: seq<Op>)
    requires LosesCourse(c, item) && UnusedIds(c, snapshots, s.grants, ids) && NewIntent(snapshots, intentId)
    requires held in s.grants && TermGrant(held, c.learner, item.courseId, c.termEnd)
    requires forall op <- ops :: LeavesAlone(op, c.learner, item.courseId)
    ensures var recorded := PersistSnapshots(snapshots, ids, intentId, c.learner, RemovedBy(c));
            var (activated, r) := GrantAll(s, DueSnapshots(recorded, intentId));
            var later := Run(activated, ops);
            && r.Success?
            && (forall t :: held.startsAt <= t < GraceEnd(c, item) && LivingUser(later, c.learner) && OpenCourse(later, item.courseId) ==>
                IsAllowed(Decide(later, Some(User(c.learner, {Student})), item.courseId, FullLearning, false, t)))
            && exists grace <- later.grants ::
                && grace.userId == c.learner && grace.courseId == item.courseId && grace.source == MembershipGrace
                && forall t :: GraceEnd(c, item) <= t ==>
                    !Opens(grace, c.learner, item.courseId, t) && !Opens(held, c.learner, item.courseId, t)
  {
    var x := LostCourseOnRecord(c, item, snapshots, ids, intentId);
    assert item.graceDays > 0;
    hide PersistSnapshots, RemovedBy, Run, GrantAll, DueSnapshots, LosesCourse, Decide, LivingUser, OpenCourse, IdsUnique, FreshIds, ProperRow;
    var recorded := PersistSnapshots(snapshots, ids, intentId, c.learner, RemovedBy(c));
    var grace := GraceGrantGiven(s, recorded, ids, |snapshots|, |RemovedBy(c)|, intentId, x);
    var activated := GrantAll(s, DueSnapshots(recorded, intentId)).0;
    GrantAllGrows(s, DueSnapshots(recorded, intentId));
    assert held in activated.grants;
    RunKeepsRow(activated, ops, grace);
    RunKeepsRow(activated, ops, held);
    OpenThroughout(Run(activated, ops), c.learner, item.courseId, held, grace, c.termEnd, GraceEnd(c, item));
  }

  lemma GraceGrantGiven(s: Store, recorded: seq<Snapshot>, ids: nat -> string, from: nat, n: nat, intentId: nat, x: Snapshot) returns (grace: Grant)
    requires IdsUnique(recorded) && x in recorded && Due(intentId)(x)
    requires forall k: nat :: from <= k < from + n ==> 1 <= |ids(k)| <= 128
    requires forall g, k: nat :: g in s.grants && g.source == MembershipGrace && from <= k < from + n ==> g.sourceId != ids(k)
    requires forall y <- recorded :: y.intentId == intentId ==> ProperRow(y, ids, from, n)
    ensures var (activated, r) := GrantAll(s, DueSnapshots(recorded, intentId));
            && r.Success? && grace in activated.grants && grace == NewGrant(grace.id, GraceInput(x))
  {
    var due := DueSnapshots(recorded, intentId);
    DueMembers(recorded, intentId);
    hide DueSnapshots, GrantAll;
    forall y <- due ensures ValidInput(GraceInput(y)) {
      assert ProperRow(y, ids, from, n);
      var k: nat :| from <= k < from + n && y.id == ids(k);
    }
    GrantAllGrows(s, due);
    assert ProperRow(x, ids, from, n);
    var k: nat :| from <= k < from + n && x.id == ids(k);
    GrantAllGrants(s, due, x);
    grace :| grace in GrantAll(s, due).0.grants && grace == NewGrant(grace.id, GraceInput(x));
  }

  /** A learner who has started a course with three days of grace and changes to a version without it. */
  lemma SomeContinuity() returns (c: VersionChange, item: Included, snapshots: seq<Snapshot>, ids: nat -> string, intentId: nat, s: Store, held: Grant)
    ensures LosesCourse(c, item) && UnusedIds(c, snapshots, s.grants, ids) && NewIntent(snapshots, intentId)
    ensures held in s.grants && TermGrant(held, c.learner, item.courseId, c.termEnd)
    ensures held.startsAt < c.termEnd && LivingUser(s, c.learner) && OpenCourse(s, item.courseId)
  {
    item := Included(7, 3);
    c := VersionChange([Activity(1, 7, true, 0, 0, 0, false)], 1, Version(0, [item]), Version(1, []), 100, 50);
    snapshots, intentId := [], 0;
    ids := (n: nat) => "snapshot";
    held := Grant(0, 1, 7, Membership, "line", true, 0, Some(100), None);
    s := Store(map[1 := false], map[7 := Course(2, false, Published, true, true, None, "VND", "")], map[], [held], {}, {});
    assert LeavesOut(c.target, item.courseId) && c.activity[0] in c.activity && item in c.current.included;
    assert [item][1..] == [] && Select(c.current.included, LeftOut(c.target)) == [item];
    assert |RemovedBy(c)| == 1;
    assert held in s.grants;
  }

  lemma OpenThroughout(s: Store, learner: nat, courseId: nat, held: Grant, grace: Grant, termEnd: int, graceEnd: int)
    requires held in s.grants && TermGrant(held, learner, courseId, termEnd)
    requires grace in s.grants && grace.userId == learner && grace.courseId == courseId && grace.source == MembershipGrace && grace.active
    requires grace.startsAt == termEnd && grace.endsAt == Some(graceEnd) && grace.graceEndsAt.None? && termEnd <= graceEnd
    ensures forall t :: held.startsAt <= t < graceEnd && LivingUser(s, learner) && OpenCourse(s, courseId) ==>
              IsAllowed(Decide(s, Some(User(learner, {Student})), courseId, FullLearning, false, t))
    ensures forall t :: graceEnd <= t ==> !Opens(grace, learner, courseId, t) && !Opens(held, learner, courseId, t)
  {
    forall t | held.startsAt <= t < graceEnd && LivingUser(s, learner) && OpenCourse(s, courseId)
      ensures IsAllowed(Decide(s, Some(User(learner, {Student})), courseId, FullLearning, false, t))
    {
      LearningIffOpens(s, Some(User(learner, {Student})), courseId, false, t);
      assert Opens(if t < termEnd then held else grace, learner, courseId, t);
    }
  }

  /** After an emergency revocation the learner keeps the course only through grants other than those of a membership
    and its grace; rows of other learners and courses are as they were. */
  lemma EmergencyLeavesOtherSources(s: Store, learner: nat, courseId: nat, roles: set<Role>, at: int)
    ensures var after := s.(grants := Strip(s.grants, learner, courseId));
            && (IsAllowed(Decide(after, Some(User(learner, roles)), courseId, FullLearning, false, at)) <==>
                (Student in roles && LivingUser(s, learner) && OpenCourse(s, courseId)
                 && exists g <- s.grants ::
                      && g.userId == learner && g.courseId == courseId && g.active && g.startsAt <= at
                      && g.source != UnverifiedReceiptAccess && g.source != Membership && g.source != MembershipGrace
                      && (g.endsAt.None? || at < g.endsAt.value || (g.graceEndsAt.Some? && at < g.graceEndsAt.value))))
            && |after.grants| == |s.grants|
            && forall k :: 0 <= k < |s.grants| ==>
                 var g := s.grants[k];
                 after.grants[k] == if g.userId == learner && g.courseId == courseId && (g.source == Membership || g.source == MembershipGrace)
                                    then g.(active := false) else g
  {
    var after := s.(grants := Strip(s.grants, learner, courseId));
    LearningIffOpens(after, Some(User(learner, roles)), courseId, false, at);
    hide Decide;
    if g :| g in after.grants && Opens(g, learner, courseId, at) {
      var k :| 0 <= k < |after.grants| && after.grants[k] == g;
      assert s.grants[k] in s.grants && s.grants[k] == g;
    }
    if g :| g in s.grants && Opens(g, learner, courseId, at) && g.source != Membership && g.source != MembershipGrace {
      var k :| 0 <= k < |s.grants| && s.grants[k] == g;
      assert after.grants[k] in after.grants && after.grants[k] == g;
    }
  }

  // ----- Activation, row by row

  /** Recorded under the intent, with a grace. */
  predicate Awaits(x: Snapshot, intentId: nat) {
    x.intentId == intentId && x.removed.graceStartsAt.Some? && x.removed.graceEndsAt.Some?
  }

  predicate Proper(x: Snapshot) {
    && 1 <= |x.id| <= 128
    && (x.removed.graceStartsAt.Some? && x.removed.graceEndsAt.Some? ==> x.removed.graceStartsAt.value < x.removed.graceEndsAt.value)
  }

  lemma {:induction false} GrantAllIff(s: Store, due: seq<Snapshot>)
    requires forall x <- due :: x.removed.graceStartsAt.Some? && x.removed.graceEndsAt.Some?
    ensures GrantAll(s, due).1.Success? <==> forall x <- due :: Proper(x)
    decreases |due|
  {
    if due != [] {
      var (s1, r) := EnsureGrant(s, GraceInput(due[0]));
      assert r.Success? <==> Proper(due[0]);
      assert forall x :: x in due <==> x == due[0] || x in due[1..];
      hide EnsureGrant, Proper;
      GrantAllIff(s1, due[1..]);
    }
  }

  /** Activation succeeds exactly when every snapshot of the intent with a grace has a usable id and a grace that ends after
    it starts.  Then each of these whose key is free, its id being its own, has an active grant for its grace. */
  lemma ActivationTold(s: Store, snapshots: seq<Snapshot>, intentId: nat)
    ensures var (after, r) := GrantAll(s, DueSnapshots(snapshots, intentId));
            && (r.Success? <==> forall x <- snapshots :: Awaits(x, intentId) ==> Proper(x))
            && (r.Success? ==> forall x <- snapshots ::
                  && Awaits(x, intentId)
                  && (forall y <- snapshots :: y.id == x.id ==> y == x)
                  && (forall g <- s.grants :: g.userId != x.userId || g.courseId != x.removed.courseId || g.source != MembershipGrace || g.sourceId != x.id)
                  ==> exists g <- after.grants ::
                        && g.userId == x.userId && g.courseId == x.removed.courseId && g.source == MembershipGrace && g.sourceId == x.id
                        && g.active && Some(g.startsAt) == x.removed.graceStartsAt && g.endsAt == x.removed.graceEndsAt && g.graceEndsAt.None?)
  {
    var due := DueSnapshots(snapshots, intentId);
    DueMembers(snapshots, intentId);
    assert forall x :: x in due <==> x in snapshots && Awaits(x, intentId);
    hide DueSnapshots;
    GrantAllIff(s, due);
    if GrantAll(s, due).1.Success? {
      forall x <- snapshots
        | && Awaits(x, intentId)
          && (forall y <- snapshots :: y.id == x.id ==> y == x)
          && (forall g <- s.grants :: g.userId != x.userId || g.courseId != x.removed.courseId || g.source != MembershipGrace || g.sourceId != x.id)
        ensures exists g <- GrantAll(s, due).0.grants ::
                  && g.userId == x.userId && g.courseId == x.removed.courseId && g.source == MembershipGrace && g.sourceId == x.id
                  && g.active && Some(g.startsAt) == x.removed.graceStartsAt && g.endsAt == x.removed.graceEndsAt && g.graceEndsAt.None?
      {
        GrantAllGrants(s, due, x);
      }
    }
  }

  /** Nothing is removed where there is no current version, or the version stays the same. */
  lemma RemovedOnlyOnChange(activity: seq<Activity>, learner: nat, current: Option<Version>, target: Version, termEndsAt: Option<int>, at: int)
    requires current.None? || current.value.id == target.id
    ensures ResolveRemovedCourses(activity, learner, current, target, termEndsAt, at) == []
  {
  }
}
