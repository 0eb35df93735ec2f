/** Keeping access to courses that a new membership version leaves out. */
module MembershipContinuity {
  import opened Wrappers
  import opened Sorting
  import opened CourseAccess

  const MS_PER_DAY := 86_400_000

  datatype Included = Included(courseId: nat, graceDays: int)

  datatype Version = Version(id: nat, included: seq<Included>)

  datatype Activity = Activity(
    userId: nat, courseId: nat, underway: bool, percent: int, watched: int, documentPercent: int, accessed: bool)

  predicate ShowsActivity(a: Activity) {
    a.underway || a.percent > 0 || a.watched > 0 || a.documentPercent > 0 || a.accessed
  }

  datatype Removed = Removed(courseId: nat, started: bool, graceDays: int, graceStartsAt: Option<int>, graceEndsAt: Option<int>)

  function LeftOut(target: Version): Included -> bool {
    (item: Included) => forall t <- target.included :: t.courseId != item.courseId
  }

  predicate HasStarted(activity: seq<Activity>, learner: nat, courseId: nat) {
    exists a <- activity :: a.userId == learner && a.courseId == courseId && ShowsActivity(a)
  }

  function RemovedItem(activity: seq<Activity>, learner: nat, termEndsAt: Option<int>, at: int): Included -> Removed {
    (item: Included) =>
      var started := HasStarted(activity, learner, item.courseId);
      var eligible := After(termEndsAt, at) && started && item.graceDays > 0;
      Removed(item.courseId, started, item.graceDays,
              if eligible then termEndsAt else None,
              if eligible && termEndsAt.Some? then Some(termEndsAt.value + item.graceDays * MS_PER_DAY) else None)
  }

  /** `resolveRemovedCourses`. */
  function ResolveRemovedCourses(activity: seq<Activity>, learner: nat, current: Option<Version>, target: Version,
                                 termEndsAt: Option<int>, at: int): seq<Removed> {
    if current.None? || current.value.id == target.id then []
    else Map(Select(current.value.included, LeftOut(target)), RemovedItem(activity, learner, termEndsAt, at))
  }

  /** A stored snapshot of a removed course. */
  datatype Snapshot = Snapshot(id: string, intentId: nat, userId: nat, removed: Removed)

  /** `persistSnapshots`: one row per intent and course; `ids` are the fresh row ids. */
  function PersistSnapshots(snapshots: seq<Snapshot>, ids: nat -> string, intentId: nat, learner: nat, removed: seq<Removed>): seq<Snapshot>
    decreases |removed|
  {
    if removed == [] then snapshots
    else
      var present := exists x <- snapshots :: x.intentId == intentId && x.removed.courseId == removed[0].courseId;
      PersistSnapshots(if present then snapshots else snapshots + [Snapshot(ids(|snapshots|), intentId, learner, removed[0])],
                       ids, intentId, learner, removed[1..])
  }

  function Due(intentId: nat): Snapshot -> bool {
    (x: Snapshot) => x.intentId == intentId && x.removed.graceStartsAt.Some? && x.removed.graceEndsAt.Some?
  }

  predicate ByCourse(a: Snapshot, b: Snapshot) { a.removed.courseId <= b.removed.courseId }

  function DueSnapshots(snapshots: seq<Snapshot>, intentId: nat): seq<Snapshot> {
    Select(Sort(snapshots, ByCourse), Due(intentId))
  }

  function GraceInput(x: Snapshot): GrantInput {
    GrantInput(x.userId, x.removed.courseId, MembershipGrace, x.id,
               if x.removed.graceStartsAt.Some? then x.removed.graceStartsAt.value else 0, x.removed.graceEndsAt, None)
  }

  /** Grants for the snapshots in turn; a refused one undoes them all. */
  function GrantAll(s: Store, due: seq<Snapshot>): (Store, Result<(), Error>)
    decreases |due|
  {
    if due == [] then (s, Success(()))
    else
      var (s1, r) := EnsureGrant(s, GraceInput(due[0]));
      if r.Failure? then (s1, r) else GrantAll(s1, due[1..])
  }

  predicate IsMembershipSource(source: SourceType) { source == Membership || source == MembershipGrace }

  predicate Stripped(g: Grant, learner: nat, courseId: nat) {
    g.userId == learner && g.courseId == courseId && IsMembershipSource(g.source)
  }

  /** Every membership grant of the learner for the course, revoked. */
  function Strip(grants: seq<Grant>, learner: nat, courseId: nat): (r: seq<Grant>)
    ensures |r| == |grants|
    ensures forall i :: 0 <= i < |r| ==> r[i] == if Stripped(grants[i], learner, courseId) then grants[i].(active := false) else grants[i]
  {
    seq(|grants|, i requires 0 <= i < |grants| => if Stripped(grants[i], learner, courseId) then grants[i].(active := false) else grants[i])
  }

  method ActivateGraceGrants(access: CourseAccessService, snapshots: seq<Snapshot>, intentId: nat) returns (r: Result<nat, Error>)
    modifies access`grants, access`enrollments, access`progress
    ensures var (s, granted) := GrantAll(old(access.State()), DueSnapshots(snapshots, intentId));
            && (granted.Success? ==> r == Success(|DueSnapshots(snapshots, intentId)|) && access.State() == s)
            && (granted.Failure? ==> r.Failure? && access.State() == old(access.State()))
  {
    hide EnsureGrant, DueSnapshots, GraceInput;
    var due := DueSnapshots(snapshots, intentId);
    var grants, enrollments, progress := access.grants, access.enrollments, access.progress;
    for i := 0 to |due|
      invariant access.users == old(access.users) && access.courses == old(access.courses) && access.lessons == old(access.lessons)
      invariant GrantAll(old(access.State()), due) == GrantAll(access.State(), due[i..])
    {
      assert due[i..][1..] == due[i + 1..];
      var granted := access.Ensure(GraceInput(due[i]));
      if granted.Failure? {
        access.grants, access.enrollments, access.progress := grants, enrollments, progress;
        return Failure(granted.error);
      }
    }
    r := Success(|due|);
  }

  datatype RevocationKind = Security | Legal

  function ReasonCode(kind: RevocationKind): string {
    if kind == Security then "MEMBERSHIP_SECURITY" else "MEMBERSHIP_LEGAL"
  }

  function StrippedAndActive(learner: nat, courseId: nat): Grant -> bool {
    (g: Grant) => Stripped(g, learner, courseId) && g.active
  }

  /** How many active grants the learner has for the course through a membership or its grace. */
  function CountHeld(grants: seq<Grant>, learner: nat, courseId: nat): nat {
    if grants == [] then 0
    else
      var g := grants[0];
      var counts := g.userId == learner && g.courseId == courseId && g.active && (g.source == Membership || g.source == MembershipGrace);
      (if counts then 1 else 0) + CountHeld(grants[1..], learner, courseId)
  }

  lemma {:induction false} FoundAreHeld(grants: seq<Grant>, learner: nat, courseId: nat)
    ensures |Select(grants, StrippedAndActive(learner, courseId))| == CountHeld(grants, learner, courseId)
  {
    if grants != [] {
      FoundAreHeld(grants[1..], learner, courseId);
    }
  }

  /** The same rows, some of the stripped ones revoked. */
  ghost predicate PartlyStripped(before: seq<Grant>, now: seq<Grant>, learner: nat, courseId: nat) {
    && |now| == |before|
    && forall k :: 0 <= k < |before| ==> now[k] == before[k] || (now[k] == before[k].(active := false) && Stripped(before[k], learner, courseId))
  }

  lemma RevokeHits(before: seq<Grant>, s: Store, learner: nat, courseId: nat, k: nat, kind: RevocationKind)
    requires KeysUnique(before) && PartlyStripped(before, s.grants, learner, courseId) && k < |before|
    ensures var g := before[k];
            RevokeGrant(s, g.userId, g.courseId, g.source, g.sourceId, ReasonCode(kind)).0.grants == s.grants[k := s.grants[k].(active := false)]
  {
    var g := before[k];
    assert !IsBlank(ReasonCode(kind)) by {
      assert 'M' in ReasonCode(kind);
    }
    var found := FindKey(s.grants, g.userId, g.courseId, g.source, g.sourceId);
    assert s.grants[k] in s.grants && HasKey(s.grants[k], g.userId, g.courseId, g.source, g.sourceId);
    var j := found.value;
    assert HasKey(before[j], g.userId, g.courseId, g.source, g.sourceId) && HasKey(before[k], before[j].userId, before[j].courseId, before[j].source, before[j].sourceId);
  }

  datatype Missing = LearnerOrCourseNotFound

  method EmergencyRevoke(access: CourseAccessService, learner: nat, courseId: nat, kind: RevocationKind) returns (revoked: Result<nat, Missing>)
    requires KeysUnique(access.grants)
    modifies access`grants
    ensures revoked.Failure? <==> learner !in access.users || courseId !in access.courses
    ensures revoked.Failure? ==> access.grants == old(access.grants)
    ensures revoked.Success? ==> access.grants == Strip(old(access.grants), learner, courseId)
    ensures revoked.Success? ==> revoked.value == CountHeld(old(access.grants), learner, courseId)
  {
    if learner !in access.users || courseId !in access.courses {
      return Failure(LearnerOrCourseNotFound);
    }
    var found := Select(access.grants, StrippedAndActive(learner, courseId));
    revoked := Success(|found|);
    FoundAreHeld(access.grants, learner, courseId);
    hide KeysUnique, Select, Strip, RevokeGrant, Reached, PartlyStripped;
    assert Reached(access.grants, access.grants, []) && PartlyStripped(access.grants, access.grants, learner, courseId) by {
      StartStripping(access.grants, learner, courseId);
    }
    ghost var before := access.grants;
    for i := 0 to |found|
      invariant PartlyStripped(before, access.grants, learner, courseId)
      invariant Reached(before, access.grants, found[..i])
    {
      var g := found[i];
      assert g in found;
      ghost var k: nat :| k < |before| && before[k] == g;
      RevokeHits(before, access.State(), learner, courseId, k, kind);
      OneMoreReached(before, access.grants, found, i, learner, courseId, k);
      var r := access.Revoke(g.userId, g.courseId, g.source, g.sourceId, ReasonCode(kind));
    }
    assert found[..|found|] == found;
    AllStripped(before, access.grants, found, learner, courseId);
  }

  lemma StartStripping(grants: seq<Grant>, learner: nat, courseId: nat)
    ensures Reached(grants, grants, []) && PartlyStripped(grants, grants, learner, courseId)
  {
  }

  /** The rows found so far are no longer active. */
  ghost predicate Reached(before: seq<Grant>, now: seq<Grant>, found: seq<Grant>) {
    |now| == |before| && forall k :: 0 <= k < |before| && before[k] in found ==> !now[k].active
  }

  lemma OneMoreReached(before: seq<Grant>, now: seq<Grant>, found: seq<Grant>, i: nat, learner: nat, courseId: nat, k: nat)
    requires KeysUnique(before) && PartlyStripped(before, now, learner, courseId)
    requires i < |found| && k < |before| && before[k] == found[i] && Stripped(before[k], learner, courseId)
    requires Reached(before, now, found[..i])
    ensures PartlyStripped(before, now[k := now[k].(active := false)], learner, courseId)
    ensures Reached(before, now[k := now[k].(active := false)], found[..i + 1])
  {
    assert found[..i + 1] == found[..i] + [found[i]];
    forall j | 0 <= j < |before| && before[j] == found[i] ensures j == k {
      assert HasKey(before[j], before[k].userId, before[k].courseId, before[k].source, before[k].sourceId);
      assert HasKey(before[k], before[j].userId, before[j].courseId, before[j].source, before[j].sourceId);
    }
  }

  lemma AllStripped(before: seq<Grant>, now: seq<Grant>, found: seq<Grant>, learner: nat, courseId: nat)
    requires PartlyStripped(before, now, learner, courseId)
    requires forall g :: g in found <==> g in before && StrippedAndActive(learner, courseId)(g)
    requires Reached(before, now, found)
    ensures now == Strip(before, learner, courseId)
  {
    forall k | 0 <= k < |before| ensures now[k] == Strip(before, learner, courseId)[k] {
      if Stripped(before[k], learner, courseId) && before[k].active {
        assert before[k] in before && before[k] in found;
      }
    }
  }
}
