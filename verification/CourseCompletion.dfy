/** Completing a course and the life of its certificates. */
module CourseCompletion {
  import opened Wrappers
  import LearningPath
  import opened CourseProgress

  datatype EnrollmentStatus = ActiveEnrollment | CompletedEnrollment | OtherEnrollment

  datatype Certificate = Certificate(userId: nat, courseId: nat, active: bool)

  /** Enrollments by user and course; certificates by id, an id being a position in the table. */
  datatype Store = Store(
    enrollments: map<(nat, nat), EnrollmentStatus>, certificates: seq<Certificate>, courses: set<nat>, templates: set<nat>)

  datatype Error = EnrollmentNotFound | CourseNotFound | TemplateNotFound | NotCompleted | CertificateNotFound | NoAccess

  datatype Issuance = Issuance(certificateId: nat, issued: bool)

  function FindActive(certificates: seq<Certificate>, userId: nat, courseId: nat): (r: Option<nat>)
    ensures r.Some? ==> r.value < |certificates| && certificates[r.value] == Certificate(userId, courseId, true)
    ensures r.None? ==> Certificate(userId, courseId, true) !in certificates
  {
    if certificates == [] then None
    else
      var n := |certificates| - 1;
      if certificates[n] == Certificate(userId, courseId, true) then Some(n)
      else
        assert forall c :: c in certificates <==> c in certificates[..n] || c == certificates[n];
        FindActive(certificates[..n], userId, courseId)
  }

  /** `issueForCompletion`: the active certificate if there is one, otherwise a new one. */
  function IssueForCompletion(s: Store, userId: nat, courseId: nat): (Store, Result<Issuance, Error>) {
    var existing := FindActive(s.certificates, userId, courseId);
    if existing.Some? then (s, Success(Issuance(existing.value, false)))
    else if courseId !in s.courses then (s, Failure(CourseNotFound))
    else if s.templates == {} then (s, Failure(TemplateNotFound))
    else (s.(certificates := s.certificates + [Certificate(userId, courseId, true)]), Success(Issuance(|s.certificates|, true)))
  }

  datatype Evaluation = Evaluation(completed: bool, completedItems: nat, totalItems: nat, enrollmentUpdated: bool, issued: Option<nat>)

  function Evaluated(rows: Rows, userId: nat, courseId: nat, updated: bool, issuance: Issuance): Evaluation {
    Evaluation(true, CompletedRequired(rows, userId, courseId), TotalRequired(rows, courseId), updated,
               if issuance.issued then Some(issuance.certificateId) else None)
  }

  /** `evaluateAndSync`, all or nothing: when no certificate can be issued the enrollment stays as it was. */
  function EvaluateAndSync(s: Store, rows: Rows, userId: nat, courseId: nat): (Store, Result<Evaluation, Error>) {
    if (userId, courseId) !in s.enrollments then (s, Failure(EnrollmentNotFound))
    else
      var status := s.enrollments[(userId, courseId)];
      if status == CompletedEnrollment then
        var (s', i) := IssueForCompletion(s, userId, courseId);
        if i.Failure? then (s, Failure(i.error)) else (s', Success(Evaluated(rows, userId, courseId, false, i.value)))
      else if !PolicyComplete(rows, userId, courseId) || status != ActiveEnrollment then
        (s, Success(Evaluation(false, CompletedRequired(rows, userId, courseId), TotalRequired(rows, courseId), false, None)))
      else
        var (s', i) := IssueForCompletion(s.(enrollments := s.enrollments[(userId, courseId) := CompletedEnrollment]), userId, courseId);
        if i.Failure? then (s, Failure(i.error)) else (s', Success(Evaluated(rows, userId, courseId, true, i.value)))
  }

  /** `issueCertificate` on request, with a chosen template. */
  function IssueCertificate(s: Store, userId: nat, courseId: nat, templateId: nat, hasAccess: bool): (Store, Result<nat, Error>) {
    if !hasAccess then (s, Failure(NoAccess))
    else if (userId, courseId) !in s.enrollments then (s, Failure(EnrollmentNotFound))
    else if s.enrollments[(userId, courseId)] != CompletedEnrollment then (s, Failure(NotCompleted))
    else if templateId !in s.templates then (s, Failure(TemplateNotFound))
    else
      var existing := FindActive(s.certificates, userId, courseId);
      if existing.Some? then (s, Success(existing.value))
      else (s.(certificates := s.certificates + [Certificate(userId, courseId, true)]), Success(|s.certificates|))
  }

  function RevokeCertificate(s: Store, id: nat): (Store, Result<Certificate, Error>) {
    if id >= |s.certificates| then (s, Failure(CertificateNotFound))
    else
      var revoked := s.certificates[id].(active := false);
      (s.(certificates := s.certificates[id := revoked]), Success(revoked))
  }

  /** Enrolling leaves an existing enrollment as it is. */
  function Enroll(s: Store, userId: nat, courseId: nat): Store {
    if (userId, courseId) in s.enrollments then s else s.(enrollments := s.enrollments[(userId, courseId) := ActiveEnrollment])
  }

  class CompletionService {
    var enrollments: map<(nat, nat), EnrollmentStatus>
    var certificates: seq<Certificate>
    var courses: set<nat>
    var templates: set<nat>

    function State(): Store
      reads this
    {
      Store(enrollments, certificates, courses, templates)
    }

    constructor (courses: set<nat>, templates: set<nat>)
      ensures State() == Store(map[], [], courses, templates)
    {
      enrollments, certificates := map[], [];
      this.courses, this.templates := courses, templates;
    }

    method Issue(userId: nat, courseId: nat) returns (r: Result<Issuance, Error>)
      modifies this`certificates
      ensures (State(), r) == IssueForCompletion(old(State()), userId, courseId)
    {
      var existing := FindActive(certificates, userId, courseId);
      if existing.Some? {
        return Success(Issuance(existing.value, false));
      }
      if courseId !in courses {
        return Failure(CourseNotFound);
      }
      if templates == {} {
        return Failure(TemplateNotFound);
      }
      certificates := certificates + [Certificate(userId, courseId, true)];
      r := Success(Issuance(|certificates| - 1, true));
    }

    method Evaluate(rows: Rows, userId: nat, courseId: nat) returns (r: Result<Evaluation, Error>)
      modifies this`enrollments, this`certificates
      ensures (State(), r) == EvaluateAndSync(old(State()), rows, userId, courseId)
    {
      if (userId, courseId) !in enrollments {
        return Failure(EnrollmentNotFound);
      }
      var before, updated := enrollments, false;
      var total, done := TotalRequired(rows, courseId), CompletedRequired(rows, userId, courseId);
      if enrollments[(userId, courseId)] != CompletedEnrollment {
        var policyComplete := total > 0 && done == total;
        if !policyComplete || enrollments[(userId, courseId)] != ActiveEnrollment {
          return Success(Evaluation(false, done, total, false, None));
        }
        enrollments := enrollments[(userId, courseId) := CompletedEnrollment];
        updated := true;
      }
      var issuance := Issue(userId, courseId);
      if issuance.Failure? {
        enrollments := before;
        return Failure(issuance.error);
      }
      r := Success(Evaluation(true, done, total, updated, if issuance.value.issued then Some(issuance.value.certificateId) else None));
    }

    method IssueOnRequest(userId: nat, courseId: nat, templateId: nat, hasAccess: bool) returns (r: Result<nat, Error>)
      modifies this`certificates
      ensures (State(), r) == IssueCertificate(old(State()), userId, courseId, templateId, hasAccess)
    {
      if !hasAccess {
        return Failure(NoAccess);
      }
      if (userId, courseId) !in enrollments {
        return Failure(EnrollmentNotFound);
      }
      if enrollments[(userId, courseId)] != CompletedEnrollment {
        return Failure(NotCompleted);
      }
      if templateId !in templates {
        return Failure(TemplateNotFound);
      }
      var existing := FindActive(certificates, userId, courseId);
      if existing.Some? {
        return Success(existing.value);
      }
      certificates := certificates + [Certificate(userId, courseId, true)];
      r := Success(|certificates| - 1);
    }

    method Revoke(id: nat) returns (r: Result<Certificate, Error>)
      modifies this`certificates
      ensures (State(), r) == RevokeCertificate(old(State()), id)
    {
      if id >= |certificates| {
        return Failure(CertificateNotFound);
      }
      if !certificates[id].active {
        assert certificates[id := certificates[id]] == certificates;
        return Success(certificates[id]);
      }
      certificates := certificates[id := certificates[id].(active := false)];
      r := Success(certificates[id]);
    }
  }

  // ----- Runs

  datatype Op =
    | EnrollOp(userId: nat, courseId: nat)
    | EvaluateOp(rows: Rows, userId: nat, courseId: nat)
    | IssueOp(userId: nat, courseId: nat, templateId: nat, hasAccess: bool)
    | RevokeOp(certificateId: nat)
    | TemplatesOp(templates: set<nat>)

  function Step(s: Store, op: Op): Store {
    match op
    case EnrollOp(userId, courseId) => Enroll(s, userId, courseId)
    case EvaluateOp(rows, userId, courseId) => EvaluateAndSync(s, rows, userId, courseId).0
    case IssueOp(userId, courseId, templateId, hasAccess) => IssueCertificate(s, userId, courseId, templateId, hasAccess).0
    case RevokeOp(id) => RevokeCertificate(s, id).0
    case TemplatesOp(templates) => s.(templates := templates)
  }

  function Run(s: Store, ops: seq<Op>): Store
    decreases |ops|
  {
    if ops == [] then s else Run(Step(s, ops[0]), ops[1..])
  }

  /** One active certificate at most per user and course, and only for a completed enrollment. */
  ghost predicate Valid(s: Store) {
    && (forall i, j :: 0 <= i < j < |s.certificates| && s.certificates[i].active ==> s.certificates[i] != s.certificates[j])
    && (forall c <- s.certificates :: c.active ==> (c.userId, c.courseId) in s.enrollments && s.enrollments[(c.userId, c.courseId)] == CompletedEnrollment)
  }

  lemma StepKeepsValid(s: Store, op: Op)
    requires Valid(s)
    ensures Valid(Step(s, op))
    ensures forall k <- s.enrollments :: s.enrollments[k] == CompletedEnrollment ==> k in Step(s, op).enrollments && Step(s, op).enrollments[k] == CompletedEnrollment
    ensures |s.certificates| <= |Step(s, op).certificates|
    ensures forall i :: 0 <= i < |s.certificates| && !s.certificates[i].active ==> Step(s, op).certificates[i] == s.certificates[i]
  {
    hide PolicyComplete, CompletedRequired, TotalRequired;
  }

  /** Over every run completed enrollments stay completed, revoked certificates stay revoked,
      and no user holds two active certificates of a course. */
  lemma {:induction false} RunKeepsValid(s: Store, ops: seq<Op>)
    requires Valid(s)
    ensures var s' := Run(s, ops);
            && Valid(s')
            && (forall k <- s.enrollments :: s.enrollments[k] == CompletedEnrollment ==> k in s'.enrollments && s'.enrollments[k] == CompletedEnrollment)
            && |s.certificates| <= |s'.certificates|
            && (forall i :: 0 <= i < |s.certificates| && !s.certificates[i].active ==> s'.certificates[i] == s.certificates[i])
    decreases |ops|
  {
    hide Step;
    if ops != [] {
      StepKeepsValid(s, ops[0]);
      RunKeepsValid(Step(s, ops[0]), ops[1..]);
    }
  }

  /** The operation does not revoke this certificate. */
  predicate Spares(op: Op, id: nat) {
    !(op.RevokeOp? && op.certificateId == id)
  }

  lemma {:induction false} CertificateStays(s: Store, ops: seq<Op>, id: nat)
    requires id < |s.certificates| && forall op <- ops :: Spares(op, id)
    ensures id < |Run(s, ops).certificates| && Run(s, ops).certificates[id] == s.certificates[id]
    decreases |ops|
  {
    if ops != [] {
      assert Spares(ops[0], id);
      StepSpares(s, ops[0], id);
      CertificateStays(Step(s, ops[0]), ops[1..], id);
    }
  }

  lemma StepSpares(s: Store, op: Op, id: nat)
    requires id < |s.certificates| && Spares(op, id)
    ensures id < |Step(s, op).certificates| && Step(s, op).certificates[id] == s.certificates[id]
  {
    hide PolicyComplete, CompletedRequired, TotalRequired;
  }

  lemma OnlyOneActive(s: Store, userId: nat, courseId: nat, id: nat)
    requires Valid(s) && id < |s.certificates| && s.certificates[id] == Certificate(userId, courseId, true)
    ensures FindActive(s.certificates, userId, courseId) == Some(id)
  {
    var f := FindActive(s.certificates, userId, courseId);
    assert s.certificates[id] in s.certificates;
  }

  /** Completing holds a certificate, and evaluating again issues nothing new until that certificate
      is revoked, whatever else happens and whatever the rows then say. */
  lemma ReEvaluationIssuesNothing(s: Store, rows: Rows, userId: nat, courseId: nat, between: seq<Op>, rows': Rows)
    requires Valid(s)
    requires var r := EvaluateAndSync(s, rows, userId, courseId).1; r.Success? && r.value.completed
    ensures var held := FindActive(EvaluateAndSync(s, rows, userId, courseId).0.certificates, userId, courseId);
            && held.Some?
            && ((forall op <- between :: Spares(op, held.value)) ==>
                var later := Run(EvaluateAndSync(s, rows, userId, courseId).0, between);
                var (after, again) := EvaluateAndSync(later, rows', userId, courseId);
                after == later && again.Success? && again.value.completed && again.value.issued.None? && !again.value.enrollmentUpdated)
  {
    var s1 := EvaluateAndSync(s, rows, userId, courseId).0;
    StepKeepsValid(s, EvaluateOp(rows, userId, courseId));
    hide PolicyComplete, CompletedRequired, TotalRequired;
    EvaluationHolds(s, rows, userId, courseId);
    var held := FindActive(s1.certificates, userId, courseId);
    if forall op <- between :: Spares(op, held.value) {
      RunKeepsValid(s1, between);
      CertificateStays(s1, between, held.value);
      OnlyOneActive(Run(s1, between), userId, courseId, held.value);
    }
  }

  lemma EvaluationHolds(s: Store, rows: Rows, userId: nat, courseId: nat)
    requires var r := EvaluateAndSync(s, rows, userId, courseId).1; r.Success? && r.value.completed
    ensures var s1 := EvaluateAndSync(s, rows, userId, courseId).0;
            && FindActive(s1.certificates, userId, courseId).Some?
            && (userId, courseId) in s1.enrollments && s1.enrollments[(userId, courseId)] == CompletedEnrollment
  {
    hide PolicyComplete, CompletedRequired, TotalRequired;
    var s1 := EvaluateAndSync(s, rows, userId, courseId).0;
    if s1.certificates != s.certificates {
      assert s1.certificates[|s.certificates|] in s1.certificates;
    }
  }

  /** Evaluating a completed enrollment issues a certificate exactly when none is active, and then appends one. */
  lemma IssuesAgainIff(s: Store, rows: Rows, userId: nat, courseId: nat)
    requires (userId, courseId) in s.enrollments && s.enrollments[(userId, courseId)] == CompletedEnrollment
    requires courseId in s.courses && s.templates != {}
    ensures var (t, r) := EvaluateAndSync(s, rows, userId, courseId);
            && r.Success? && r.value.completed && !r.value.enrollmentUpdated && t.enrollments == s.enrollments
            && (r.value.issued.Some? <==> Certificate(userId, courseId, true) !in s.certificates)
            && (r.value.issued.None? ==> t == s)
            && (r.value.issued.Some? ==> r.value.issued.value == |s.certificates|)
            && (r.value.issued.Some? ==> t.certificates == s.certificates + [Certificate(userId, courseId, true)])
  {
    hide PolicyComplete, CompletedRequired, TotalRequired;
    var f := FindActive(s.certificates, userId, courseId);
    assert f.Some? ==> s.certificates[f.value] in s.certificates;
  }

  lemma RevokedIsGone(s: Store, userId: nat, courseId: nat, id: nat)
    requires Valid(s) && id < |s.certificates| && s.certificates[id] == Certificate(userId, courseId, true)
    ensures Certificate(userId, courseId, true) !in Step(s, RevokeOp(id)).certificates
  {
    var t := Step(s, RevokeOp(id));
    forall i | 0 <= i < |t.certificates| ensures t.certificates[i] != Certificate(userId, courseId, true) {
      if i < id {
        assert s.certificates[i].active ==> s.certificates[i] != s.certificates[id];
      } else if id < i {
        assert s.certificates[id] != s.certificates[i];
      }
    }
  }

  lemma {:induction false} CoursesStay(s: Store, ops: seq<Op>)
    ensures Run(s, ops).courses == s.courses
    decreases |ops|
  {
    if ops != [] {
      hide PolicyComplete, CompletedRequired, TotalRequired;
      CoursesStay(Step(s, ops[0]), ops[1..]);
    }
  }

  /** Once the certificate a completion holds is revoked, it stays revoked, and whatever else happens an evaluation issues
    another exactly when no other has been issued meanwhile; straight after the revocation it does. */
  lemma ReissuedAfterRevocation(s: Store, rows: Rows, userId: nat, courseId: nat, held: nat, between: seq<Op>, rows': Rows)
    requires Valid(s) && courseId in s.courses
    requires var (t, r) := EvaluateAndSync(s, rows, userId, courseId);
             r.Success? && r.value.completed && FindActive(t.certificates, userId, courseId) == Some(held)
    requires var t := EvaluateAndSync(s, rows, userId, courseId).0; Run(Step(t, RevokeOp(held)), between).templates != {}
    ensures var t := EvaluateAndSync(s, rows, userId, courseId).0;
            var later := Run(Step(t, RevokeOp(held)), between);
            var (after, again) := EvaluateAndSync(later, rows', userId, courseId);
            && held < |after.certificates| && !after.certificates[held].active
            && again.Success? && (again.value.issued.Some? <==> Certificate(userId, courseId, true) !in later.certificates)
            && (between == [] ==> again.value.issued.Some?)
  {
    var t := EvaluateAndSync(s, rows, userId, courseId).0;
    StepKeepsValid(s, EvaluateOp(rows, userId, courseId));
    EvaluationHolds(s, rows, userId, courseId);
    CoursesStay(s, [EvaluateOp(rows, userId, courseId)]);
    assert [EvaluateOp(rows, userId, courseId)][1..] == [];
    assert t == Run(s, [EvaluateOp(rows, userId, courseId)]);
    RevokedIsGone(t, userId, courseId, held);
    StepKeepsValid(t, RevokeOp(held));
    var revoked := Step(t, RevokeOp(held));
    RunKeepsValid(revoked, between);
    CoursesStay(revoked, between);
    hide EvaluateAndSync, Valid, Run;
    IssuesAgainIff(Run(revoked, between), rows', userId, courseId);
    assert between == [] ==> Run(revoked, between) == revoked by {
      NoOps(revoked);
    }
  }

  lemma NoOps(s: Store)
    ensures Run(s, []) == s
  {
  }

  /** An evaluation of an active enrollment completes it exactly when the learning path is complete
      and a certificate can be had. */
  lemma CompletesIff(s: Store, rows: Rows, userId: nat, courseId: nat)
    requires OneProgressRow(rows.progress)
    requires (userId, courseId) in s.enrollments && s.enrollments[(userId, courseId)] == ActiveEnrollment
    ensures EvaluateAndSync(s, rows, userId, courseId).0.enrollments[(userId, courseId)] == CompletedEnrollment <==>
            && LearningPath.CalculateProgress(LearningPath.BuildSteps(CandidatesOf(rows, userId, courseId))).completed
            && (FindActive(s.certificates, userId, courseId).Some? || (courseId in s.courses && s.templates != {}))
  {
    hide PolicyComplete, CompletedRequired, TotalRequired, CandidatesOf, LearningPath.BuildSteps, LearningPath.CalculateProgress, OneProgressRow, FindActive;
    ProgressAgrees(rows, userId, courseId);
  }

  // ----- Each operation, in terms of the tables

  ghost predicate Holds(s: Store, userId: nat, courseId: nat) {
    exists c <- s.certificates :: c.userId == userId && c.courseId == courseId && c.active
  }

  /** The enrollment is completed, or is active with every required item of the course done, and there is one. */
  predicate Finished(status: EnrollmentStatus, rows: Rows, userId: nat, courseId: nat) {
    || status == CompletedEnrollment
    || (status == ActiveEnrollment && TotalRequired(rows, courseId) >= 1 && CompletedRequired(rows, userId, courseId) == TotalRequired(rows, courseId))
  }

  lemma HoldsIff(s: Store, userId: nat, courseId: nat)
    ensures FindActive(s.certificates, userId, courseId).Some? <==> Holds(s, userId, courseId)
  {
    var f := FindActive(s.certificates, userId, courseId);
    if f.Some? {
      assert s.certificates[f.value] in s.certificates;
    }
    if c :| c in s.certificates && c.userId == userId && c.courseId == courseId && c.active {
      assert c == Certificate(userId, courseId, true);
    }
  }

  /** An evaluation fails exactly without an enrollment, or when a certificate is due, none is held and none can be
    made; then nothing changes.  Otherwise a finished enrollment ends up completed and holding a certificate, one being
    added exactly when none was held, and any other stays as it is. */
  lemma EvaluateTold(s: Store, rows: Rows, userId: nat, courseId: nat)
    ensures var (t, r) := EvaluateAndSync(s, rows, userId, courseId);
            var k := (userId, courseId);
            && (r.Success? <==>
                (k in s.enrollments
                 && (Finished(s.enrollments[k], rows, userId, courseId) ==>
                     Holds(s, userId, courseId) || (courseId in s.courses && s.templates != {}))))
            && (r.Failure? ==> t == s)
            && (r.Success? ==>
                  var finished := Finished(s.enrollments[k], rows, userId, courseId);
                  var issued := finished && !Holds(s, userId, courseId);
                  && r.value.completed == finished && r.value.enrollmentUpdated == (finished && s.enrollments[k] == ActiveEnrollment)
                  && r.value.completedItems == CompletedRequired(rows, userId, courseId) && r.value.totalItems == TotalRequired(rows, courseId)
                  && r.value.issued == (if issued then Some(|s.certificates|) else None)
                  && t.enrollments == (if finished then s.enrollments[k := CompletedEnrollment] else s.enrollments)
                  && t.certificates == (if issued then s.certificates + [Certificate(userId, courseId, true)] else s.certificates)
                  && t.courses == s.courses && t.templates == s.templates)
  {
    HoldsIff(s, userId, courseId);
    hide CompletedRequired, TotalRequired, FindActive, Holds;
  }

  /** A certificate is issued on request exactly to a learner with access whose enrollment is completed, for a template
    that exists; an active one that is held is returned, otherwise one is added. */
  lemma IssueTold(s: Store, userId: nat, courseId: nat, templateId: nat, hasAccess: bool)
    ensures var (t, r) := IssueCertificate(s, userId, courseId, templateId, hasAccess);
            var k := (userId, courseId);
            && (r.Success? <==> hasAccess && k in s.enrollments && s.enrollments[k] == CompletedEnrollment && templateId in s.templates)
            && (r.Success? ==> r.value < |t.certificates| && t.certificates[r.value] == Certificate(userId, courseId, true))
            && (r.Success? && !Holds(s, userId, courseId) ==> t == s.(certificates := s.certificates + [Certificate(userId, courseId, true)]))
            && (r.Failure? || Holds(s, userId, courseId) ==> t == s)
  {
    HoldsIff(s, userId, courseId);
    hide Holds;
  }

  /** Revoking makes the one certificate inactive, if there is such a one, and leaves every other row; enrolling adds an
    active enrollment where there is none. */
  lemma RevokeAndEnrollTold(s: Store, id: nat, userId: nat, courseId: nat)
    ensures var (t, r) := RevokeCertificate(s, id);
            && (r.Success? <==> id < |s.certificates|) && t == s.(certificates := t.certificates) && |t.certificates| == |s.certificates|
            && forall k :: 0 <= k < |s.certificates| ==>
                 t.certificates[k] == if k == id then s.certificates[k].(active := false) else s.certificates[k]
    ensures var t := Enroll(s, userId, courseId);
            && t == s.(enrollments := t.enrollments) && t.enrollments.Keys == s.enrollments.Keys + {(userId, courseId)}
            && (forall k <- s.enrollments :: t.enrollments[k] == s.enrollments[k])
            && ((userId, courseId) !in s.enrollments ==> t.enrollments[(userId, courseId)] == ActiveEnrollment)
  {
  }
}
