/** Two computations of the same progress from the rows of a course: by building the learning path,
  and by counting required items. */
module CourseProgress {
  import opened Wrappers
  import opened Sorting
  import opened LearningPath

  datatype LessonRow = LessonRow(id: nat, courseId: nat, title: string, orderIndex: int, isRequired: bool, deleted: bool)

  datatype ProgressStatus = NotStarted | Started | Done

  datatype ProgressRow = ProgressRow(userId: nat, lessonId: nat, status: ProgressStatus, percent: int)

  /** An assignment or a quiz. */
  datatype TaskRow = TaskRow(
    id: nat, courseId: nat, title: string, lessonId: Option<nat>, isRequired: bool, deleted: bool, published: bool)

  datatype SubmissionRow = SubmissionRow(assignmentId: nat, userId: nat)

  datatype AttemptRow = AttemptRow(quizId: nat, userId: nat, submitted: bool, passed: Option<bool>)

  datatype Rows = Rows(
    lessons: seq<LessonRow>, progress: seq<ProgressRow>, assignments: seq<TaskRow>, submissions: seq<SubmissionRow>,
    quizzes: seq<TaskRow>, attempts: seq<AttemptRow>)

  // ----- Through the learning path

  function LessonOf(courseId: nat): LessonRow -> bool {
    (l: LessonRow) => l.courseId == courseId && !l.deleted
  }

  function PublishedIn(courseId: nat): TaskRow -> bool {
    (t: TaskRow) => t.courseId == courseId && !t.deleted && t.published
  }

  /** The one progress row that the path reads for a lesson. */
  function FirstProgress(progress: seq<ProgressRow>, userId: nat, lessonId: nat): Option<ProgressRow> {
    if progress == [] then None
    else if progress[0].userId == userId && progress[0].lessonId == lessonId then Some(progress[0])
    else FirstProgress(progress[1..], userId, lessonId)
  }

  function LessonCandidate(rows: Rows, userId: nat): LessonRow -> Candidate {
    (l: LessonRow) =>
      var p := FirstProgress(rows.progress, userId, l.id);
      Candidate(l.id, LessonStep, l.title, l.orderIndex, l.isRequired, p.Some? && p.value.status == Done,
                p.Some? && (p.value.status == Started || p.value.percent > 0))
  }

  function MaxPosition(lessons: seq<LessonRow>, acc: int): int {
    if lessons == [] then acc
    else MaxPosition(lessons[1..], if lessons[0].orderIndex > acc then lessons[0].orderIndex else acc)
  }

  /** The position of the lesson of an assignment or quiz, or past the end when it has none in the path. */
  function TaskPosition(lessons: seq<LessonRow>, lessonId: Option<nat>, past: int): int {
    if lessonId.None? || lessons == [] then past
    else if lessons[|lessons| - 1].id == lessonId.value then lessons[|lessons| - 1].orderIndex
    else TaskPosition(lessons[..|lessons| - 1], lessonId, past)
  }

  predicate Submitted(rows: Rows, userId: nat, assignmentId: nat) {
    exists s <- rows.submissions :: s.assignmentId == assignmentId && s.userId == userId
  }

  predicate Attempted(rows: Rows, userId: nat, quizId: nat) {
    exists a <- rows.attempts :: a.quizId == quizId && a.userId == userId && a.submitted
  }

  predicate Passed(rows: Rows, userId: nat, quizId: nat) {
    exists a <- rows.attempts :: a.quizId == quizId && a.userId == userId && a.submitted && a.passed == Some(true)
  }

  function AssignmentCandidate(rows: Rows, userId: nat, lessons: seq<LessonRow>, past: int): TaskRow -> Candidate {
    (t: TaskRow) =>
      Candidate(t.id, AssignmentStep, t.title, TaskPosition(lessons, t.lessonId, past), t.isRequired,
                Submitted(rows, userId, t.id), Submitted(rows, userId, t.id))
  }

  function QuizCandidate(rows: Rows, userId: nat, lessons: seq<LessonRow>, past: int): TaskRow -> Candidate {
    (t: TaskRow) =>
      Candidate(t.id, QuizStep, t.title, TaskPosition(lessons, t.lessonId, past), t.isRequired,
                Passed(rows, userId, t.id), Attempted(rows, userId, t.id))
  }

  function CandidatesOf(rows: Rows, userId: nat, courseId: nat): seq<Candidate> {
    var lessons := Select(rows.lessons, LessonOf(courseId));
    var past := MaxPosition(lessons, 0) + 1;
    Map(lessons, LessonCandidate(rows, userId))
    + Map(Select(rows.assignments, PublishedIn(courseId)), AssignmentCandidate(rows, userId, lessons, past))
    + Map(Select(rows.quizzes, PublishedIn(courseId)), QuizCandidate(rows, userId, lessons, past))
  }

  /** The last lesson with this id. */
  predicate LastOf(lessons: seq<LessonRow>, id: nat, i: nat) {
    i < |lessons| && lessons[i].id == id && forall j :: i < j < |lessons| ==> lessons[j].id != id
  }

  /** The positions of the lessons by id, a later lesson replacing an earlier one. */
  ghost predicate Positions(positions: map<nat, int>, lessons: seq<LessonRow>) {
    && (forall l <- lessons :: l.id in positions)
    && (forall id <- positions :: exists i: nat :: LastOf(lessons, id, i) && lessons[i].orderIndex == positions[id])
  }

  lemma PositionsAdd(positions: map<nat, int>, lessons: seq<LessonRow>, l: LessonRow)
    requires Positions(positions, lessons)
    ensures Positions(positions[l.id := l.orderIndex], lessons + [l])
  {
    var more, all := positions[l.id := l.orderIndex], lessons + [l];
    forall id <- more
      ensures exists i: nat :: LastOf(all, id, i) && all[i].orderIndex == more[id]
    {
      if id == l.id {
        assert LastOf(all, id, |lessons|);
      } else {
        var i: nat :| LastOf(lessons, id, i) && lessons[i].orderIndex == positions[id];
        assert LastOf(all, id, i);
      }
    }
  }

  /** Looking a lesson up in the map finds the position that searching the lessons from the end finds. */
  lemma {:induction false} PositionLookup(positions: map<nat, int>, lessons: seq<LessonRow>, lessonId: Option<nat>, past: int)
    requires Positions(positions, lessons)
    ensures TaskPosition(lessons, lessonId, past) == if lessonId.Some? && lessonId.value in positions then positions[lessonId.value] else past
  {
    if lessonId.Some? {
      if lessonId.value in positions {
        var i: nat :| LastOf(lessons, lessonId.value, i) && lessons[i].orderIndex == positions[lessonId.value];
        LastMatch(lessons, lessonId.value, past, i);
      } else {
        NoMatch(lessons, lessonId.value, past);
      }
    }
  }

  lemma {:induction false} LastMatch(lessons: seq<LessonRow>, id: nat, past: int, i: nat)
    requires LastOf(lessons, id, i)
    ensures TaskPosition(lessons, Some(id), past) == lessons[i].orderIndex
  {
    if i < |lessons| - 1 {
      LastMatch(lessons[..|lessons| - 1], id, past, i);
    }
  }

  lemma {:induction false} NoMatch(lessons: seq<LessonRow>, id: nat, past: int)
    requires forall l <- lessons :: l.id != id
    ensures TaskPosition(lessons, Some(id), past) == past
  {
    if lessons != [] {
      assert lessons[|lessons| - 1] in lessons;
      NoMatch(lessons[..|lessons| - 1], id, past);
    }
  }

  lemma {:induction false} MaxPositionSnoc(lessons: seq<LessonRow>, l: LessonRow, acc: int)
    ensures MaxPosition(lessons + [l], acc) == if l.orderIndex > MaxPosition(lessons, acc) then l.orderIndex else MaxPosition(lessons, acc)
  {
    if lessons == [] {
      assert [l][1..] == [];
    } else {
      assert (lessons + [l])[1..] == lessons[1..] + [l];
      MaxPositionSnoc(lessons[1..], l, if lessons[0].orderIndex > acc then lessons[0].orderIndex else acc);
    }
  }

  lemma {:induction false} MapSnoc<T, U>(s: seq<T>, x: T, f: T -> U)
    ensures Map(s + [x], f) == Map(s, f) + [f(x)]
  {
    if s == [] {
      assert [x][1..] == [];
    } else {
      assert (s + [x])[1..] == s[1..] + [x];
      MapSnoc(s[1..], x, f);
    }
  }

  /** The lesson positions, and the greatest of them. */
  method LessonPositions(lessons: seq<LessonRow>) returns (positions: map<nat, int>, maxPosition: int)
    ensures Positions(positions, lessons) && maxPosition == MaxPosition(lessons, 0)
  {
    positions, maxPosition := map[], 0;
    for i := 0 to |lessons|
      invariant Positions(positions, lessons[..i]) && maxPosition == MaxPosition(lessons[..i], 0)
    {
      assert lessons[..i + 1] == lessons[..i] + [lessons[i]];
      PositionsAdd(positions, lessons[..i], lessons[i]);
      MaxPositionSnoc(lessons[..i], lessons[i], 0);
      positions := positions[lessons[i].id := lessons[i].orderIndex];
      if lessons[i].orderIndex > maxPosition {
        maxPosition := lessons[i].orderIndex;
      }
    }
    assert lessons[..|lessons|] == lessons;
  }

  function PositionIn(positions: map<nat, int>, lessonId: Option<nat>, past: int): int {
    if lessonId.Some? && lessonId.value in positions then positions[lessonId.value] else past
  }

  lemma MapPrefix<T, U>(s: seq<T>, f: T -> U, i: nat)
    requires i < |s|
    ensures Map(s[..i + 1], f) == Map(s[..i], f) + [f(s[i])]
  {
    hide Map;
    assert s[..i + 1] == s[..i] + [s[i]];
    MapSnoc(s[..i], s[i], f);
  }

  lemma MapEnds<T, U>(s: seq<T>, f: T -> U)
    ensures Map(s[..0], f) == [] && s[..|s|] == s
  {
    assert s[..0] == [];
  }

  method LessonCandidates(rows: Rows, userId: nat, lessons: seq<LessonRow>) returns (candidates: seq<Candidate>)
    ensures candidates == Map(lessons, LessonCandidate(rows, userId))
  {
    ghost var f := LessonCandidate(rows, userId);
    hide Map, FirstProgress;
    candidates := [];
    MapEnds(lessons, f);
    for i := 0 to |lessons|
      invariant candidates == Map(lessons[..i], f)
    {
      MapPrefix(lessons, f, i);
      var l := lessons[i];
      var p := FirstProgress(rows.progress, userId, l.id);
      candidates := candidates + [Candidate(l.id, LessonStep, l.title, l.orderIndex, l.isRequired, p.Some? && p.value.status == Done,
                                            p.Some? && (p.value.status == Started || p.value.percent > 0))];
    }
  }

  method AssignmentCandidates(rows: Rows, userId: nat, lessons: seq<LessonRow>, positions: map<nat, int>, past: int, assignments: seq<TaskRow>)
    returns (candidates: seq<Candidate>)
    requires Positions(positions, lessons)
    ensures candidates == Map(assignments, AssignmentCandidate(rows, userId, lessons, past))
  {
    ghost var f := AssignmentCandidate(rows, userId, lessons, past);
    hide Map, TaskPosition, Positions;
    candidates := [];
    MapEnds(assignments, f);
    for i := 0 to |assignments|
      invariant candidates == Map(assignments[..i], f)
    {
      MapPrefix(assignments, f, i);
      var t := assignments[i];
      var submitted := Submitted(rows, userId, t.id);
      PositionLookup(positions, lessons, t.lessonId, past);
      candidates := candidates + [Candidate(t.id, AssignmentStep, t.title, PositionIn(positions, t.lessonId, past), t.isRequired, submitted, submitted)];
    }
  }

  method QuizCandidates(rows: Rows, userId: nat, lessons: seq<LessonRow>, positions: map<nat, int>, past: int, quizzes: seq<TaskRow>)
    returns (candidates: seq<Candidate>)
    requires Positions(positions, lessons)
    ensures candidates == Map(quizzes, QuizCandidate(rows, userId, lessons, past))
  {
    ghost var f := QuizCandidate(rows, userId, lessons, past);
    hide Map, TaskPosition, Positions;
    candidates := [];
    MapEnds(quizzes, f);
    for i := 0 to |quizzes|
      invariant candidates == Map(quizzes[..i], f)
    {
      MapPrefix(quizzes, f, i);
      var t := quizzes[i];
      PositionLookup(positions, lessons, t.lessonId, past);
      candidates := candidates + [Candidate(t.id, QuizStep, t.title, PositionIn(positions, t.lessonId, past), t.isRequired,
                                            Passed(rows, userId, t.id), Attempted(rows, userId, t.id))];
    }
  }

  /** The candidates: lessons, then assignments, then quizzes, placed by a map from lessons to positions. */
  method CollectCandidates(rows: Rows, userId: nat, courseId: nat) returns (candidates: seq<Candidate>)
    ensures candidates == CandidatesOf(rows, userId, courseId)
  {
    hide Select, Map, MaxPosition, Positions;
    var lessons := Select(rows.lessons, LessonOf(courseId));
    var positions, maxPosition := LessonPositions(lessons);
    candidates := LessonCandidates(rows, userId, lessons);
    var assignments := AssignmentCandidates(rows, userId, lessons, positions, maxPosition + 1, Select(rows.assignments, PublishedIn(courseId)));
    candidates := candidates + assignments;
    var quizzes := QuizCandidates(rows, userId, lessons, positions, maxPosition + 1, Select(rows.quizzes, PublishedIn(courseId)));
    candidates := candidates + quizzes;
  }

  /** The step that follows the first occurrence of the current one, if any. */
  ghost predicate Follows(steps: seq<Step>, current: Option<Step>, next: Option<Step>) {
    if current.None? then next.None?
    else exists i :: 0 <= i < |steps| && steps[i] == current.value && current.value !in steps[..i] && next == NextIn(steps, i)
  }

  function NextIn(steps: seq<Step>, i: nat): Option<Step> {
    if i + 1 < |steps| then Some(steps[i + 1]) else None
  }

  method NextAfter(steps: seq<Step>, current: Option<Step>) returns (next: Option<Step>)
    requires current.Some? ==> current.value in steps
    ensures Follows(steps, current, next)
  {
    if current.None? {
      return None;
    }
    var i := 0;
    while steps[i] != current.value
      invariant 0 <= i < |steps| && current.value in steps[i..] && current.value !in steps[..i]
      decreases |steps| - i
    {
      assert steps[i..] == [steps[i]] + steps[i + 1..] && steps[..i + 1] == steps[..i] + [steps[i]];
      i := i + 1;
    }
    next := NextIn(steps, i);
  }

  method LearningPathForUser(rows: Rows, userId: nat, courseId: nat)
    returns (steps: seq<Step>, current: Option<Step>, next: Option<Step>, progress: Progress)
    ensures steps == BuildSteps(CandidatesOf(rows, userId, courseId))
    ensures current == CurrentStep(steps) && progress == CalculateProgress(steps)
    ensures Follows(steps, current, next)
  {
    hide CandidatesOf, BuildSteps, Follows;
    var candidates := CollectCandidates(rows, userId, courseId);
    steps := BuildLearningPathSteps(candidates);
    progress := CalculateProgress(steps);
    current := CurrentStep(steps);
    FindStatusFinds(steps, InProgress);
    FindStatusFinds(steps, Available);
    next := NextAfter(steps, current);
  }

  // ----- By counting required items

  function RequiredLesson(courseId: nat): LessonRow -> bool {
    (l: LessonRow) => l.courseId == courseId && !l.deleted && l.isRequired
  }

  function RequiredTask(courseId: nat): TaskRow -> bool {
    (t: TaskRow) => t.courseId == courseId && !t.deleted && t.isRequired && t.published
  }

  predicate HasCompletedProgress(rows: Rows, userId: nat, lessonId: nat) {
    exists p <- rows.progress :: p.userId == userId && p.lessonId == lessonId && p.status == Done
  }

  function CompletedRequiredLesson(rows: Rows, userId: nat, courseId: nat): LessonRow -> bool {
    (l: LessonRow) => RequiredLesson(courseId)(l) && HasCompletedProgress(rows, userId, l.id)
  }

  function CompletedRequiredQuiz(rows: Rows, userId: nat, courseId: nat): TaskRow -> bool {
    (t: TaskRow) => RequiredTask(courseId)(t) && Passed(rows, userId, t.id)
  }

  function CompletedRequiredAssignment(rows: Rows, userId: nat, courseId: nat): TaskRow -> bool {
    (t: TaskRow) => RequiredTask(courseId)(t) && Submitted(rows, userId, t.id)
  }

  function TotalRequired(rows: Rows, courseId: nat): nat {
    |Select(rows.lessons, RequiredLesson(courseId))|
    + |Select(rows.quizzes, RequiredTask(courseId))|
    + |Select(rows.assignments, RequiredTask(courseId))|
  }

  function CompletedRequired(rows: Rows, userId: nat, courseId: nat): nat {
    |Select(rows.lessons, CompletedRequiredLesson(rows, userId, courseId))|
    + |Select(rows.quizzes, CompletedRequiredQuiz(rows, userId, courseId))|
    + |Select(rows.assignments, CompletedRequiredAssignment(rows, userId, courseId))|
  }

  predicate PolicyComplete(rows: Rows, userId: nat, courseId: nat) {
    TotalRequired(rows, courseId) > 0 && CompletedRequired(rows, userId, courseId) == TotalRequired(rows, courseId)
  }

  // ----- They agree

  function RequiredCandidate(): Candidate -> bool { (c: Candidate) => c.isRequired }

  function RequiredDone(): Candidate -> bool { (c: Candidate) => c.isRequired && c.completed }

  /** Along the path, steps count as their candidates do. */
  lemma {:induction false} MarkCounts(sorted: seq<Candidate>, blocker: Option<Step>)
    ensures |Select(Mark(sorted, blocker), RequiredStep())| == |Select(sorted, RequiredCandidate())|
    ensures |Select(Select(Mark(sorted, blocker), RequiredStep()), CompletedStep())| == |Select(sorted, RequiredDone())|
  {
    if sorted != [] {
      var next := NextBlocker(sorted[0], blocker);
      MarkCounts(sorted[1..], next);
      assert Mark(sorted, blocker)[1..] == Mark(sorted[1..], next);
      var rest := Select(Mark(sorted[1..], next), RequiredStep());
      var step := MarkOne(sorted[0], blocker);
      if step.candidate.isRequired {
        assert ([step] + rest)[1..] == rest;
      }
    }
  }

  lemma CandidateCount(rows: Rows, userId: nat, courseId: nat, p: Candidate -> bool,
                       ofLesson: LessonRow -> bool, ofAssignment: TaskRow -> bool, ofQuiz: TaskRow -> bool)
    requires var lessons := Select(rows.lessons, LessonOf(courseId));
             var past := MaxPosition(lessons, 0) + 1;
             && (forall l <- rows.lessons :: ofLesson(l) <==> LessonOf(courseId)(l) && p(LessonCandidate(rows, userId)(l)))
             && (forall t <- rows.assignments :: ofAssignment(t) <==> PublishedIn(courseId)(t) && p(AssignmentCandidate(rows, userId, lessons, past)(t)))
             && (forall t <- rows.quizzes :: ofQuiz(t) <==> PublishedIn(courseId)(t) && p(QuizCandidate(rows, userId, lessons, past)(t)))
    ensures |Select(CandidatesOf(rows, userId, courseId), p)| ==
            |Select(rows.lessons, ofLesson)| + |Select(rows.assignments, ofAssignment)| + |Select(rows.quizzes, ofQuiz)|
  {
    var lessons := Select(rows.lessons, LessonOf(courseId));
    var past := MaxPosition(lessons, 0) + 1;
    var fl, fa, fq := LessonCandidate(rows, userId), AssignmentCandidate(rows, userId, lessons, past), QuizCandidate(rows, userId, lessons, past);
    var a, q := Select(rows.assignments, PublishedIn(courseId)), Select(rows.quizzes, PublishedIn(courseId));
    hide Select, Map, LessonCandidate, AssignmentCandidate, QuizCandidate;
    SelectConcat(Map(lessons, fl) + Map(a, fa), Map(q, fq), p);
    SelectConcat(Map(lessons, fl), Map(a, fa), p);
    CountOfMap(lessons, fl, p, ofLesson);
    CountOfMap(a, fa, p, ofAssignment);
    CountOfMap(q, fq, p, ofQuiz);
    SelectTwice(rows.lessons, LessonOf(courseId), ofLesson);
    SelectTwice(rows.assignments, PublishedIn(courseId), ofAssignment);
    SelectTwice(rows.quizzes, PublishedIn(courseId), ofQuiz);
  }

  /** The tables hold one progress row for each user and lesson. */
  ghost predicate OneProgressRow(progress: seq<ProgressRow>) {
    forall i, j :: 0 <= i < j < |progress| ==> progress[i].userId != progress[j].userId || progress[i].lessonId != progress[j].lessonId
  }

  lemma {:induction false} FirstProgressIsTheOne(progress: seq<ProgressRow>, userId: nat, lessonId: nat)
    requires OneProgressRow(progress)
    ensures var p := FirstProgress(progress, userId, lessonId);
            (p.Some? && p.value.status == Done) <==> exists q <- progress :: q.userId == userId && q.lessonId == lessonId && q.status == Done
  {
    if progress != [] {
      FirstProgressIsTheOne(progress[1..], userId, lessonId);
      assert forall q :: q in progress <==> q == progress[0] || q in progress[1..];
    }
  }

  lemma PathCounts(candidates: seq<Candidate>)
    ensures var p := CalculateProgress(BuildSteps(candidates));
            && p.totalSteps == |Select(candidates, RequiredCandidate())|
            && p.completedSteps == |Select(candidates, RequiredDone())|
            && p.completed == (p.totalSteps > 0 && p.completedSteps == p.totalSteps)
  {
    MarkCounts(Sort(candidates, Before), None);
    CountIgnoresOrder(Sort(candidates, Before), candidates, RequiredCandidate());
    CountIgnoresOrder(Sort(candidates, Before), candidates, RequiredDone());
    hide Sort, Mark, Select;
  }

  /** The path's completed steps, total and completeness are those of the completion policy, for the same rows. */
  lemma ProgressAgrees(rows: Rows, userId: nat, courseId: nat)
    requires OneProgressRow(rows.progress)
    ensures var p := CalculateProgress(BuildSteps(CandidatesOf(rows, userId, courseId)));
            && p.totalSteps == TotalRequired(rows, courseId)
            && p.completedSteps == CompletedRequired(rows, userId, courseId)
            && p.completed == PolicyComplete(rows, userId, courseId)
  {
    hide CalculateProgress, BuildSteps, Select, CandidatesOf, CompletedRequired;
    PathCounts(CandidatesOf(rows, userId, courseId));
    TotalCount(rows, userId, courseId);
    DoneCount(rows, userId, courseId);
  }

  lemma TotalCount(rows: Rows, userId: nat, courseId: nat)
    ensures |Select(CandidatesOf(rows, userId, courseId), RequiredCandidate())| == TotalRequired(rows, courseId)
  {
    hide Select, CandidatesOf;
    CandidateCount(rows, userId, courseId, RequiredCandidate(), RequiredLesson(courseId), RequiredTask(courseId), RequiredTask(courseId));
  }

  lemma DoneCount(rows: Rows, userId: nat, courseId: nat)
    requires OneProgressRow(rows.progress)
    ensures |Select(CandidatesOf(rows, userId, courseId), RequiredDone())| == CompletedRequired(rows, userId, courseId)
  {
    hide Select, CandidatesOf, FirstProgress;
    var lessons := Select(rows.lessons, LessonOf(courseId));
    var past := MaxPosition(lessons, 0) + 1;
    forall l <- rows.lessons
      ensures CompletedRequiredLesson(rows, userId, courseId)(l) <==> LessonOf(courseId)(l) && RequiredDone()(LessonCandidate(rows, userId)(l))
    {
      FirstProgressIsTheOne(rows.progress, userId, l.id);
      assert RequiredLesson(courseId)(l) <==> LessonOf(courseId)(l) && l.isRequired;
      assert HasCompletedProgress(rows, userId, l.id) <==> exists p <- rows.progress :: p.userId == userId && p.lessonId == l.id && p.status == Done;
    }
    forall t: TaskRow ensures RequiredTask(courseId)(t) <==> PublishedIn(courseId)(t) && t.isRequired {
    }
    CandidateCount(rows, userId, courseId, RequiredDone(), CompletedRequiredLesson(rows, userId, courseId),
                   CompletedRequiredAssignment(rows, userId, courseId), CompletedRequiredQuiz(rows, userId, courseId));
  }
}
