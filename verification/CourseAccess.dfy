/** Access grants for courses, and the decision whether a user may learn, preview or manage a course. */
module CourseAccess {
  import opened Wrappers
  import opened Sorting
  import TextChunker

  datatype SourceType =
    | UnverifiedReceiptAccess | CoursePurchase | Membership | MembershipGrace | Scholarship | TmiReward
    | Admin | FreeEnrollment | LegacyEnrollment

  /** A grant row; ids follow the order of insertion. */
  datatype Grant = Grant(
    id: nat, userId: nat, courseId: nat, source: SourceType, sourceId: string, active: bool,
    startsAt: int, endsAt: Option<int>, graceEndsAt: Option<int>)

  datatype CourseStatus = Draft | Published | Archived

  datatype Course = Course(
    instructor: nat, deleted: bool, status: CourseStatus, isPublic: bool, moderationClear: bool,
    price: Option<int>, currency: string, title: string)

  datatype Role = Student | Instructor | PlatformAdmin

  datatype User = User(id: nat, roles: set<Role>)

  /** `users` tells of each user record whether it is deleted; `progress` holds (user, lesson) pairs. */
  datatype Store = Store(
    users: map<nat, bool>, courses: map<nat, Course>, lessons: map<nat, set<nat>>,
    grants: seq<Grant>, enrollments: set<(nat, nat)>, progress: set<(nat, nat)>)

  // ----- The decision

  datatype Operation = Manage | PublicPreview | FullLearning

  datatype Facts = Facts(
    userDeleted: bool, courseDeleted: bool, isPlatformAdmin: bool, isOwner: bool, moderationClear: bool, published: bool,
    archived: bool, isPublic: bool, isPreviewResource: bool, hasActiveGrant: bool, hasGraceGrant: bool)

  datatype Decision = Manager | Preview | Learner | SubjectNotFound | CourseNotFound | AccessRequired

  predicate IsAllowed(d: Decision) { d.Manager? || d.Preview? || d.Learner? }

  function ResolveFacts(op: Operation, f: Facts): Decision {
    if f.userDeleted || f.courseDeleted then SubjectNotFound
    else if op == Manage then (if f.isPlatformAdmin || f.isOwner then Manager else CourseNotFound)
    else if !f.moderationClear then CourseNotFound
    else if op == PublicPreview then (if f.published && f.isPublic && f.isPreviewResource then Preview else CourseNotFound)
    else if (f.published || f.archived) && (f.hasActiveGrant || f.hasGraceGrant) then Learner
    else AccessRequired
  }

  predicate After(t: Option<int>, at: int) { t.Some? && t.value > at }

  /** The rows the grant lookup considers. */
  predicate IsCandidate(g: Grant, userId: nat, courseId: nat, at: int) {
    && g.userId == userId && g.courseId == courseId && g.active && g.startsAt <= at
    && g.source != UnverifiedReceiptAccess
    && (g.endsAt.None? || After(g.endsAt, at) || After(g.graceEndsAt, at))
  }

  function CandidateFor(userId: nat, courseId: nat, at: int): Grant -> bool {
    (g: Grant) => IsCandidate(g, userId, courseId, at)
  }

  /** Descending, with absent values first. */
  predicate LaterFirst(a: Option<int>, b: Option<int>) {
    a.None? || (b.Some? && b.value <= a.value)
  }

  predicate LookupOrder(a: Grant, b: Grant) {
    if a.endsAt != b.endsAt then LaterFirst(a.endsAt, b.endsAt)
    else if a.graceEndsAt != b.graceEndsAt then LaterFirst(a.graceEndsAt, b.graceEndsAt)
    else a.id <= b.id
  }

  function FindGrant(grants: seq<Grant>, userId: nat, courseId: nat, at: int): Option<Grant> {
    var found := Select(Sort(grants, LookupOrder), CandidateFor(userId, courseId, at));
    if found == [] then None else Some(found[0])
  }

  function FactsOf(s: Store, user: Option<User>, courseId: nat, op: Operation, preview: bool, at: int): Facts {
    if courseId !in s.courses then Facts(false, true, false, false, false, false, false, false, false, false, false)
    else
      var course := s.courses[courseId];
      var grant := if op == FullLearning && user.Some? && Student in user.value.roles then FindGrant(s.grants, user.value.id, courseId, at) else None;
      var explicitGrace := grant.Some? && grant.value.source == MembershipGrace;
      var hasActive := grant.Some? && !explicitGrace && (grant.value.endsAt.None? || After(grant.value.endsAt, at));
      var hasGrace := grant.Some? && (explicitGrace || (!hasActive && After(grant.value.graceEndsAt, at)));
      Facts(user.Some? && (user.value.id !in s.users || s.users[user.value.id]), course.deleted,
            user.Some? && PlatformAdmin in user.value.roles, user.Some? && user.value.id == course.instructor,
            course.moderationClear, course.status == Published, course.status == Archived, course.isPublic, preview, hasActive, hasGrace)
  }

  function Decide(s: Store, user: Option<User>, courseId: nat, op: Operation, preview: bool, at: int): Decision {
    ResolveFacts(op, FactsOf(s, user, courseId, op, preview, at))
  }

  function DecideContent(s: Store, user: User, courseId: nat, preview: bool, at: int): Decision {
    var manage := Decide(s, Some(user), courseId, Manage, preview, at);
    if IsAllowed(manage) then manage
    else
      var shown := Decide(s, Some(user), courseId, PublicPreview, preview, at);
      if preview && IsAllowed(shown) then shown else Decide(s, Some(user), courseId, FullLearning, preview, at)
  }

  // ----- Granting and revoking

  datatype GrantInput = GrantInput(
    userId: nat, courseId: nat, source: SourceType, sourceId: string, startsAt: int, endsAt: Option<int>, graceEndsAt: Option<int>)

  datatype Error = InvalidGrant | InvalidReason

  predicate ValidInput(i: GrantInput) {
    && 1 <= |i.sourceId| <= 128
    && (i.endsAt.Some? ==> i.startsAt < i.endsAt.value)
    && (i.graceEndsAt.Some? ==> i.endsAt.Some? && i.endsAt.value <= i.graceEndsAt.value)
  }

  predicate HasKey(g: Grant, userId: nat, courseId: nat, source: SourceType, sourceId: string) {
    g.userId == userId && g.courseId == courseId && g.source == source && g.sourceId == sourceId
  }

  function FindKey(grants: seq<Grant>, userId: nat, courseId: nat, source: SourceType, sourceId: string): (r: Option<nat>)
    ensures r.Some? ==> r.value < |grants| && HasKey(grants[r.value], userId, courseId, source, sourceId)
    ensures r.None? ==> forall g <- grants :: !HasKey(g, userId, courseId, source, sourceId)
  {
    if grants == [] then None
    else
      var n := |grants| - 1;
      if HasKey(grants[n], userId, courseId, source, sourceId) then Some(n)
      else
        assert forall g :: g in grants <==> g in grants[..n] || g == grants[n];
        FindKey(grants[..n], userId, courseId, source, sourceId)
  }

  function NewGrant(id: nat, i: GrantInput): Grant {
    Grant(id, i.userId, i.courseId, i.source, i.sourceId, true, i.startsAt, i.endsAt, i.graceEndsAt)
  }

  function WithGrant(grants: seq<Grant>, i: GrantInput): seq<Grant> {
    if FindKey(grants, i.userId, i.courseId, i.source, i.sourceId).Some? then grants else grants + [NewGrant(|grants|, i)]
  }

  function LessonsOf(s: Store, courseId: nat): set<nat> {
    if courseId in s.lessons then s.lessons[courseId] else {}
  }

  function EnsureGrant(s: Store, i: GrantInput): (Store, Result<(), Error>) {
    if !ValidInput(i) then (s, Failure(InvalidGrant))
    else
      (s.(grants := WithGrant(s.grants, i),
          enrollments := s.enrollments + {(i.userId, i.courseId)},
          progress := s.progress + set l | l in LessonsOf(s, i.courseId) :: (i.userId, l)), Success(()))
  }

  predicate IsBlank(reason: string) {
    forall c <- reason :: c as int < 0x1_0000 && TextChunker.IsSpace(c as int)
  }

  function RevokeGrant(s: Store, userId: nat, courseId: nat, source: SourceType, sourceId: string, reason: string): (Store, Result<(), Error>) {
    if IsBlank(reason) || |reason| > 120 then (s, Failure(InvalidReason))
    else
      var k := FindKey(s.grants, userId, courseId, source, sourceId);
      if k.None? then (s, Success(()))
      else (s.(grants := s.grants[k.value := s.grants[k.value].(active := false)]), Success(()))
  }

  class CourseAccessService {
    var users: map<nat, bool>
    var courses: map<nat, Course>
    var lessons: map<nat, set<nat>>
    var grants: seq<Grant>
    var enrollments: set<(nat, nat)>
    var progress: set<(nat, nat)>

    function State(): Store
      reads this
    {
      Store(users, courses, lessons, grants, enrollments, progress)
    }

    constructor (s: Store)
      ensures State() == s
    {
      users, courses, lessons := s.users, s.courses, s.lessons;
      grants, enrollments, progress := s.grants, s.enrollments, s.progress;
    }

    method DecideAccess(user: Option<User>, courseId: nat, op: Operation, preview: bool, at: int) returns (d: Decision)
      ensures d == Decide(State(), user, courseId, op, preview, at)
    {
      hide FindGrant, ResolveFacts, After;
      if courseId !in courses {
        d := ResolveFacts(op, Facts(false, true, false, false, false, false, false, false, false, false, false));
        return;
      }
      var course := courses[courseId];
      var hasActiveGrant, hasGraceGrant := false, false;
      if op == FullLearning && user.Some? && Student in user.value.roles {
        var grant := FindGrant(grants, user.value.id, courseId, at);
        var explicitGrace := grant.Some? && grant.value.source == MembershipGrace;
        hasActiveGrant := grant.Some? && !explicitGrace && (grant.value.endsAt.None? || After(grant.value.endsAt, at));
        hasGraceGrant := grant.Some? && (explicitGrace || (!hasActiveGrant && After(grant.value.graceEndsAt, at)));
      }
      var facts := Facts(
        user.Some? && (user.value.id !in users || users[user.value.id]), course.deleted,
        user.Some? && PlatformAdmin in user.value.roles, user.Some? && user.value.id == course.instructor,
        course.moderationClear, course.status == Published, course.status == Archived, course.isPublic, preview,
        hasActiveGrant, hasGraceGrant);
      assert facts == FactsOf(State(), user, courseId, op, preview, at);
      d := ResolveFacts(op, facts);
    }

    method Ensure(i: GrantInput) returns (r: Result<(), Error>)
      modifies this`grants, this`enrollments, this`progress
      ensures (State(), r) == EnsureGrant(old(State()), i)
    {
      if !ValidInput(i) {
        return Failure(InvalidGrant);
      }
      if FindKey(grants, i.userId, i.courseId, i.source, i.sourceId).None? {
        grants := grants + [NewGrant(|grants|, i)];
      }
      enrollments := enrollments + {(i.userId, i.courseId)};
      progress := progress + set l | l in LessonsOf(State(), i.courseId) :: (i.userId, l);
      r := Success(());
    }

    method Revoke(userId: nat, courseId: nat, source: SourceType, sourceId: string, reason: string) returns (r: Result<(), Error>)
      modifies this`grants
      ensures (State(), r) == RevokeGrant(old(State()), userId, courseId, source, sourceId, reason)
    {
      if IsBlank(reason) || |reason| > 120 {
        return Failure(InvalidReason);
      }
      var k := FindKey(grants, userId, courseId, source, sourceId);
      if k.Some? {
        if grants[k.value].active {
          grants := grants[k.value := grants[k.value].(active := false)];
        } else {
          assert grants[k.value := grants[k.value].(active := false)] == grants;
        }
      }
      r := Success(());
    }
  }

  // ----- Laws of the decision

  lemma FindGrantFinds(grants: seq<Grant>, userId: nat, courseId: nat, at: int)
    ensures var f := FindGrant(grants, userId, courseId, at);
            && (f.Some? ==> f.value in grants && IsCandidate(f.value, userId, courseId, at))
            && (f.None? <==> forall g <- grants :: !IsCandidate(g, userId, courseId, at))
  {
    SortMembers(grants, LookupOrder);
    var found := Select(Sort(grants, LookupOrder), CandidateFor(userId, courseId, at));
    hide Sort, Select;
    if found != [] {
      assert found[0] in found;
    }
    forall g <- grants | IsCandidate(g, userId, courseId, at) ensures g in found {
      assert CandidateFor(userId, courseId, at)(g);
    }
  }

  /** The course is open to learners at all. */
  predicate OpenCourse(s: Store, courseId: nat) {
    && courseId in s.courses && !s.courses[courseId].deleted && s.courses[courseId].moderationClear
    && (s.courses[courseId].status == Published || s.courses[courseId].status == Archived)
  }

  predicate LivingUser(s: Store, userId: nat) {
    userId in s.users && !s.users[userId]
  }

  /** The grant has begun, has not run out, with its grace if it has one, and is no provisional one. */
  predicate Opens(g: Grant, userId: nat, courseId: nat, at: int) {
    && g.userId == userId && g.courseId == courseId && g.active && g.source != UnverifiedReceiptAccess
    && g.startsAt <= at
    && (g.endsAt.None? || at < g.endsAt.value || (g.graceEndsAt.Some? && at < g.graceEndsAt.value))
  }

  lemma OpensIff(g: Grant, userId: nat, courseId: nat, at: int)
    ensures IsCandidate(g, userId, courseId, at) <==> Opens(g, userId, courseId, at)
  {
  }

  /** Reading one grant row decides as reading them all would: learning is allowed iff the user and course
      are there, the course is open, and some active grant of the learner, other than a provisional one, has
      started and either never ends, or has not ended, or is within its grace. */
  lemma LearningIff(s: Store, user: Option<User>, courseId: nat, preview: bool, at: int)
    ensures IsAllowed(Decide(s, user, courseId, FullLearning, preview, at)) <==>
            && user.Some? && Student in user.value.roles && user.value.id in s.users && !s.users[user.value.id]
            && courseId in s.courses && !s.courses[courseId].deleted && s.courses[courseId].moderationClear
            && (s.courses[courseId].status == Published || s.courses[courseId].status == Archived)
            && exists g <- s.grants ::
                 && g.userId == user.value.id && g.courseId == courseId && g.active && g.source != UnverifiedReceiptAccess
                 && g.startsAt <= at
                 && (g.endsAt.None? || at < g.endsAt.value || (g.graceEndsAt.Some? && at < g.graceEndsAt.value))
  {
    if user.Some? {
      FindGrantFinds(s.grants, user.value.id, courseId, at);
    }
    hide FindGrant;
  }

  lemma LearningIffOpens(s: Store, user: Option<User>, courseId: nat, preview: bool, at: int)
    ensures IsAllowed(Decide(s, user, courseId, FullLearning, preview, at)) <==>
            && user.Some? && Student in user.value.roles && LivingUser(s, user.value.id) && OpenCourse(s, courseId)
            && exists g <- s.grants :: Opens(g, user.value.id, courseId, at)
  {
    LearningIff(s, user, courseId, preview, at);
    hide Decide;
  }

  /** A further grant makes a difference only where it opens the course itself: one that has not started, has run out,
    is revoked, provisional, or of another user or course opens nothing. */
  lemma OnlyOpeningGrantsCount(s: Store, more: Grant, user: User, courseId: nat, preview: bool, at: int)
    requires || at < more.startsAt || !more.active || more.source == UnverifiedReceiptAccess
             || more.userId != user.id || more.courseId != courseId
             || (more.endsAt.Some? && more.endsAt.value <= at && (more.graceEndsAt.None? || more.graceEndsAt.value <= at))
    ensures IsAllowed(Decide(s.(grants := s.grants + [more]), Some(user), courseId, FullLearning, preview, at))
            == IsAllowed(Decide(s, Some(user), courseId, FullLearning, preview, at))
  {
    LearningIffOpens(s, Some(user), courseId, preview, at);
    LearningIffOpens(s.(grants := s.grants + [more]), Some(user), courseId, preview, at);
    hide Decide;
    assert forall g :: g in s.grants + [more] <==> g in s.grants || g == more;
  }

  /** A user given must be there; then the owner and administrators may manage, and public previews of a published course
    are shown to anyone. */
  lemma ManageAndPreviewIff(s: Store, user: Option<User>, courseId: nat, preview: bool, at: int)
    ensures var there := (user.None? || LivingUser(s, user.value.id)) && courseId in s.courses && !s.courses[courseId].deleted;
            && (IsAllowed(Decide(s, user, courseId, Manage, preview, at)) <==>
                there && user.Some? && (PlatformAdmin in user.value.roles || s.courses[courseId].instructor == user.value.id))
            && (IsAllowed(Decide(s, user, courseId, PublicPreview, preview, at)) <==>
                there && s.courses[courseId].moderationClear && preview
                && s.courses[courseId].status == Published && s.courses[courseId].isPublic)
            && (forall op :: Decide(s, user, courseId, op, preview, at) == SubjectNotFound <==> !there)
            && (Decide(s, user, courseId, FullLearning, preview, at) == AccessRequired ==> there && s.courses[courseId].moderationClear)
  {
    hide FindGrant;
  }

  /** Content is open to managers first, then to anyone where it is a public preview, then to learners. */
  lemma ContentIff(s: Store, user: User, courseId: nat, preview: bool, at: int)
    ensures IsAllowed(DecideContent(s, user, courseId, preview, at)) <==>
            && LivingUser(s, user.id) && courseId in s.courses && !s.courses[courseId].deleted
            && (|| PlatformAdmin in user.roles || s.courses[courseId].instructor == user.id
                || (preview && s.courses[courseId].moderationClear && s.courses[courseId].status == Published && s.courses[courseId].isPublic)
                || (OpenCourse(s, courseId) && Student in user.roles && exists g <- s.grants :: Opens(g, user.id, courseId, at)))
    ensures DecideContent(s, user, courseId, preview, at) == Manager <==>
            LivingUser(s, user.id) && courseId in s.courses && !s.courses[courseId].deleted
            && (PlatformAdmin in user.roles || s.courses[courseId].instructor == user.id)
  {
    LearningIffOpens(s, Some(user), courseId, preview, at);
    hide FindGrant;
  }

  // ----- Laws of granting

  /** No two rows have the same key. */
  ghost predicate KeysUnique(grants: seq<Grant>) {
    forall i, j :: 0 <= i < j < |grants| ==> !HasKey(grants[j], grants[i].userId, grants[i].courseId, grants[i].source, grants[i].sourceId)
  }

  lemma EnsureKeepsKeys(s: Store, i: GrantInput)
    requires KeysUnique(s.grants)
    ensures KeysUnique(EnsureGrant(s, i).0.grants)
  {
    var after := WithGrant(s.grants, i);
    forall m, n | 0 <= m < n < |after| ensures !HasKey(after[n], after[m].userId, after[m].courseId, after[m].source, after[m].sourceId) {
      if n == |s.grants| {
        assert s.grants[m] in s.grants;
      }
    }
  }

  lemma KeyIsThere(grants: seq<Grant>, i: GrantInput)
    ensures var after := WithGrant(grants, i);
            && grants <= after && FindKey(after, i.userId, i.courseId, i.source, i.sourceId).Some?
            && exists g <- after :: HasKey(g, i.userId, i.courseId, i.source, i.sourceId)
  {
    var after := WithGrant(grants, i);
    var k := FindKey(grants, i.userId, i.courseId, i.source, i.sourceId);
    var g := if k.Some? then after[k.value] else after[|grants|];
    assert g in after && HasKey(g, i.userId, i.courseId, i.source, i.sourceId);
  }

  /** Granting again changes nothing more, and never touches a row that is there, revoked ones included. */
  lemma EnsureGrantIdempotent(s: Store, i: GrantInput)
    ensures EnsureGrant(EnsureGrant(s, i).0, i).0 == EnsureGrant(s, i).0
    ensures s.grants <= EnsureGrant(s, i).0.grants
    ensures KeysUnique(s.grants) ==> KeysUnique(EnsureGrant(s, i).0.grants)
    ensures EnsureGrant(s, i).1.Success? ==>
            && (i.userId, i.courseId) in EnsureGrant(s, i).0.enrollments
            && (forall l <- LessonsOf(s, i.courseId) :: (i.userId, l) in EnsureGrant(s, i).0.progress)
            && exists g <- EnsureGrant(s, i).0.grants :: HasKey(g, i.userId, i.courseId, i.source, i.sourceId)
  {
    KeyIsThere(s.grants, i);
    if KeysUnique(s.grants) {
      EnsureKeepsKeys(s, i);
    }
    hide FindKey, KeysUnique, HasKey;
  }

  /** Granting succeeds exactly for a source id of 1 to 128 characters, an end after the start, and a grace that needs an
    end and reaches at least to it.  It adds one active row with the dates given, unless the key is taken, enrols the
    learner, and gives a progress row for each lesson. */
  lemma EnsureTold(s: Store, i: GrantInput)
    ensures var (s', r) := EnsureGrant(s, i);
            && (r.Success? <==>
                (1 <= |i.sourceId| <= 128 && (i.endsAt.Some? ==> i.startsAt < i.endsAt.value)
                 && (i.graceEndsAt.Some? ==> i.endsAt.Some? && i.endsAt.value <= i.graceEndsAt.value)))
            && (r.Failure? ==> s' == s)
            && (r.Success? ==>
                  var taken := exists g <- s.grants :: g.userId == i.userId && g.courseId == i.courseId && g.source == i.source && g.sourceId == i.sourceId;
                  && (taken ==> s'.grants == s.grants)
                  && (!taken ==>
                      s'.grants == s.grants + [Grant(|s.grants|, i.userId, i.courseId, i.source, i.sourceId, true, i.startsAt, i.endsAt, i.graceEndsAt)])
                  && (forall u, c :: (u, c) in s'.enrollments <==> (u, c) in s.enrollments || (u == i.userId && c == i.courseId))
                  && (forall u, l :: (u, l) in s'.progress <==>
                        (u, l) in s.progress || (u == i.userId && i.courseId in s.lessons && l in s.lessons[i.courseId]))
                  && s'.users == s.users && s'.courses == s.courses && s'.lessons == s.lessons)
  {
    var k := FindKey(s.grants, i.userId, i.courseId, i.source, i.sourceId);
    if k.Some? {
      assert s.grants[k.value] in s.grants;
    }
  }

  /** Revoking succeeds exactly for a reason of at most 120 characters that is not blank, and deactivates the row with
    the key, if there is one, and no other. */
  lemma RevokeTold(s: Store, userId: nat, courseId: nat, source: SourceType, sourceId: string, reason: string)
    requires KeysUnique(s.grants)
    ensures var (s', r) := RevokeGrant(s, userId, courseId, source, sourceId, reason);
            && (r.Success? <==> |reason| <= 120 && exists c <- reason :: c as int >= 0x1_0000 || !TextChunker.IsSpace(c as int))
            && (r.Failure? ==> s' == s)
            && (r.Success? ==>
                  && |s'.grants| == |s.grants| && s' == s.(grants := s'.grants)
                  && forall n :: 0 <= n < |s.grants| ==>
                       var g := s.grants[n];
                       s'.grants[n] == if g.userId == userId && g.courseId == courseId && g.source == source && g.sourceId == sourceId
                                       then g.(active := false) else g)
  {
    hide TextChunker.IsSpace;
    var k := FindKey(s.grants, userId, courseId, source, sourceId);
    forall n | 0 <= n < |s.grants| && HasKey(s.grants[n], userId, courseId, source, sourceId) ensures k == Some(n) {
      assert s.grants[n] in s.grants;
      var m := k.value;
      assert HasKey(s.grants[m], s.grants[n].userId, s.grants[n].courseId, s.grants[n].source, s.grants[n].sourceId);
      assert HasKey(s.grants[n], s.grants[m].userId, s.grants[m].courseId, s.grants[m].source, s.grants[m].sourceId);
    }
  }
}
