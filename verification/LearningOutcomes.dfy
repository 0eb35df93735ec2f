/** The learning path and the progress along it in terms of the rows alone: the order, the conditions and the
  roundings are written out here once more, independently of the functions that compute them. */
module LearningOutcomes {
  import opened Wrappers
  import opened Sorting
  import opened LearningPath
  import opened CourseProgress

  // ----- The order of the steps

  /** A smaller position; at the same position lessons, then assignments, then quizzes; among equals a smaller id. */
  predicate Ahead(a: Candidate, b: Candidate) {
    || a.position < b.position
    || (a.position == b.position && a.stepType != b.stepType && (a.stepType == LessonStep || b.stepType == QuizStep))
    || (a.position == b.position && a.stepType == b.stepType && a.id < b.id)
  }

  lemma BeforeMeans(a: Candidate, b: Candidate)
    ensures Before(a, b) <==> !Ahead(b, a)
  {
  }

  function CandidatesIn(steps: seq<Step>): (r: seq<Candidate>)
    ensures |r| == |steps| && forall i :: 0 <= i < |r| ==> r[i] == steps[i].candidate
  {
    if steps == [] then [] else [steps[0].candidate] + CandidatesIn(steps[1..])
  }

  lemma {:induction false} MarkKeepsCandidates(sorted: seq<Candidate>, blocker: Option<Step>)
    ensures CandidatesIn(Mark(sorted, blocker)) == sorted
  {
    if sorted != [] {
      MarkKeepsCandidates(sorted[1..], NextBlocker(sorted[0], blocker));
      assert Mark(sorted, blocker)[1..] == Mark(sorted[1..], NextBlocker(sorted[0], blocker));
    }
  }

  lemma PathIsSorted(candidates: seq<Candidate>)
    ensures CandidatesIn(BuildSteps(candidates)) == Sort(candidates, Before) && Sorted(Sort(candidates, Before), Before)
  {
    MarkKeepsCandidates(Sort(candidates, Before), None);
    BeforeIsPreorder();
    SortSorts(candidates, Before);
  }

  /** Each candidate becomes one step.  Positions never fall along the path; at one position lessons come before
    assignments and these before quizzes; among steps of one type and position the ids never fall. */
  lemma PathInOrder(candidates: seq<Candidate>)
    ensures var steps := BuildSteps(candidates);
            && multiset(CandidatesIn(steps)) == multiset(candidates)
            && forall i, j :: 0 <= i < j < |steps| ==>
                 var a, b := steps[i].candidate, steps[j].candidate;
                 && a.position <= b.position
                 && (a.position == b.position && b.stepType == LessonStep ==> a.stepType == LessonStep)
                 && (a.position == b.position && a.stepType == QuizStep ==> b.stepType == QuizStep)
                 && (a.position == b.position && a.stepType == b.stepType ==> a.id <= b.id)
  {
    var steps := BuildSteps(candidates);
    PathIsSorted(candidates);
    hide BuildSteps, Sort;
    forall i, j | 0 <= i < j < |steps|
      ensures !Ahead(steps[j].candidate, steps[i].candidate)
    {
      BeforeMeans(steps[i].candidate, steps[j].candidate);
      assert Before(CandidatesIn(steps)[i], CandidatesIn(steps)[j]);
    }
  }

  // ----- The status of a step

  /** Some required and open candidate lies ahead. */
  ghost predicate HeldUp(c: Candidate, candidates: seq<Candidate>) {
    exists b <- candidates :: b.isRequired && !b.completed && Ahead(b, c)
  }

  /** Of two candidates one lies ahead of the other. */
  lemma Untied(candidates: seq<Candidate>, a: Candidate, b: Candidate)
    requires DistinctKeys(candidates) && a in candidates && b in candidates && a != b
    ensures Ahead(a, b) || Ahead(b, a)
  {
    var i :| 0 <= i < |candidates| && candidates[i] == a;
    var j :| 0 <= j < |candidates| && candidates[j] == b;
    if i < j {
      assert !SameKey(candidates[i], candidates[j]);
    } else {
      assert !SameKey(candidates[j], candidates[i]);
    }
  }

  lemma GatedIsHeldUp(c: Candidate, candidates: seq<Candidate>)
    requires DistinctKeys(candidates) && c in candidates
    ensures Gated(c, candidates) <==> HeldUp(c, candidates)
  {
    forall b <- candidates ensures (Before(b, c) && b != c) <==> Ahead(b, c) {
      BeforeMeans(b, c);
      if b != c {
        Untied(candidates, b, c);
      }
    }
    hide Before, Ahead;
  }

  /** A step is completed when its candidate is; else locked exactly when a required open candidate lies ahead;
    else in progress exactly when begun. */
  lemma StatusTold(candidates: seq<Candidate>, i: nat)
    requires DistinctKeys(candidates) && i < |BuildSteps(candidates)|
    ensures var step := BuildSteps(candidates)[i];
            var c := step.candidate;
            && c in candidates
            && (step.status == Completed <==> c.completed)
            && (step.status == Locked <==> !c.completed && HeldUp(c, candidates))
            && (step.status == InProgress <==> !c.completed && !HeldUp(c, candidates) && c.inProgress)
            && (step.status == Available <==> !c.completed && !HeldUp(c, candidates) && !c.inProgress)
  {
    var step := BuildSteps(candidates)[i];
    PathIsSorted(candidates);
    SortMembers(candidates, Before);
    assert step.candidate == Sort(candidates, Before)[i] && step.candidate in Sort(candidates, Before);
    StepStatus(candidates, i);
    hide BuildSteps, Sort, HeldUp, Gated;
    GatedIsHeldUp(step.candidate, candidates);
  }

  /** In the sorted list with distinct keys, an earlier candidate lies ahead of every later one. */
  lemma SortedAhead(candidates: seq<Candidate>, i: nat, j: nat)
    requires DistinctKeys(candidates) && i < j < |Sort(candidates, Before)|
    ensures Ahead(Sort(candidates, Before)[i], Sort(candidates, Before)[j])
  {
    var sorted := Sort(candidates, Before);
    PathIsSorted(candidates);
    SortMembers(candidates, Before);
    SortedDistinct(candidates, i, j);
    hide Sort;
    var a, b := sorted[i], sorted[j];
    assert a in sorted && b in sorted && Before(a, b);
    Untied(candidates, a, b);
    BeforeMeans(a, b);
  }

  lemma AheadOfLater(candidates: seq<Candidate>, m: nat, i: nat)
    requires m < |Sort(candidates, Before)| && i < |Sort(candidates, Before)|
    requires Ahead(Sort(candidates, Before)[m], Sort(candidates, Before)[i])
    ensures m < i
  {
    var sorted := Sort(candidates, Before);
    PathIsSorted(candidates);
    hide Sort;
    BeforeMeans(sorted[i], sorted[m]);
    BeforeMeans(sorted[m], sorted[m]);
    hide *;
  }

  lemma {:induction false} FirstBlocking(sorted: seq<Candidate>, held: Candidate) returns (k: nat)
    requires held in sorted && Blocks(held)
    ensures k < |sorted| && Blocks(sorted[k])
    ensures forall j :: 0 <= j < k ==> !Blocks(sorted[j])
  {
    if Blocks(sorted[0]) {
      k := 0;
    } else {
      assert held in sorted[1..];
      k := FirstBlocking(sorted[1..], held);
      forall j | 0 <= j < k + 1 ensures !Blocks(sorted[j]) {
        if j > 0 {
          assert sorted[j] == sorted[1..][j - 1];
        }
      }
      k := k + 1;
    }
  }

  lemma FirstAheadOfOthers(candidates: seq<Candidate>, k: nat)
    requires DistinctKeys(candidates) && k < |Sort(candidates, Before)|
    requires forall j :: 0 <= j < k ==> !Blocks(Sort(candidates, Before)[j])
    ensures Sort(candidates, Before)[k] in candidates
    ensures forall d <- candidates :: Blocks(d) && d != Sort(candidates, Before)[k] ==> Ahead(Sort(candidates, Before)[k], d)
  {
    var sorted := Sort(candidates, Before);
    SortMembers(candidates, Before);
    hide Sort, Ahead, Before, Blocks, DistinctKeys;
    assert sorted[k] in sorted;
    forall d <- candidates | Blocks(d) && d != sorted[k] ensures Ahead(sorted[k], d) {
      assert d in sorted;
      var n :| 0 <= n < |sorted| && sorted[n] == d;
      SortedAhead(candidates, k, n);
    }
  }

  lemma HeldUpIndex(candidates: seq<Candidate>, i: nat) returns (k: nat)
    requires DistinctKeys(candidates) && i < |Sort(candidates, Before)| && HeldUp(Sort(candidates, Before)[i], candidates)
    ensures k < i && Blocks(Sort(candidates, Before)[k])
    ensures forall j :: 0 <= j < k ==> !Blocks(Sort(candidates, Before)[j])
  {
    var sorted := Sort(candidates, Before);
    SortMembers(candidates, Before);
    hide Sort, Ahead, Before, DistinctKeys;
    var held :| held in candidates && held.isRequired && !held.completed && Ahead(held, sorted[i]);
    assert held in sorted;
    k := FirstBlocking(sorted, held);
    var m: nat :| m < |sorted| && sorted[m] == held;
    assert k <= m;
    AheadOfLater(candidates, m, i);
  }

  /** The title given as the reason is that of the required open candidate that lies ahead of all the others. */
  lemma ReasonTold(candidates: seq<Candidate>, i: nat)
    requires DistinctKeys(candidates) && i < |BuildSteps(candidates)| && BuildSteps(candidates)[i].status == Locked
    ensures exists b <- candidates ::
              && b.isRequired && !b.completed && Ahead(b, BuildSteps(candidates)[i].candidate)
              && BuildSteps(candidates)[i].lockedBy == Some(b.title)
              && forall d <- candidates :: d.isRequired && !d.completed && d != b ==> Ahead(b, d)
  {
    var sorted := Sort(candidates, Before);
    StatusTold(candidates, i);
    PathIsSorted(candidates);
    assert sorted[i] == BuildSteps(candidates)[i].candidate;
    hide Sort, Ahead, Before, DistinctKeys, HeldUp, Mark;
    var k := HeldUpIndex(candidates, i);
    LockedByFirst(sorted, None, k, i);
    FirstAheadOfOthers(candidates, k);
    SortedAhead(candidates, k, i);
  }

  // ----- The current step

  /** Neither completed nor held up. */
  ghost predicate CanGoOn(c: Candidate, candidates: seq<Candidate>) {
    !c.completed && !HeldUp(c, candidates)
  }

  lemma {:induction false} FoundFirst(steps: seq<Step>, status: Status)
    requires FindStatus(steps, status).Some?
    ensures exists i :: 0 <= i < |steps| && FindStatus(steps, status) == Some(steps[i]) && steps[i].status == status
                        && forall j :: 0 <= j < i ==> steps[j].status != status
  {
    if steps[0].status != status {
      FoundFirst(steps[1..], status);
      var i :| 0 <= i < |steps[1..]| && FindStatus(steps[1..], status) == Some(steps[1..][i]) && steps[1..][i].status == status
        && forall j :: 0 <= j < i ==> steps[1..][j].status != status;
      assert steps[i + 1] == steps[1..][i];
      forall j | 0 <= j < i + 1 ensures steps[j].status != status {
        if j > 0 {
          assert steps[j] == steps[1..][j - 1];
        }
      }
    }
  }

  lemma StatusesTold(candidates: seq<Candidate>)
    requires DistinctKeys(candidates)
    ensures var steps := BuildSteps(candidates);
            forall i :: 0 <= i < |steps| ==>
              && steps[i].candidate in candidates
              && (steps[i].status == InProgress <==> CanGoOn(steps[i].candidate, candidates) && steps[i].candidate.inProgress)
              && (steps[i].status == Available <==> CanGoOn(steps[i].candidate, candidates) && !steps[i].candidate.inProgress)
  {
    var steps := BuildSteps(candidates);
    forall i | 0 <= i < |steps|
      ensures steps[i].candidate in candidates
      ensures steps[i].status == InProgress <==> CanGoOn(steps[i].candidate, candidates) && steps[i].candidate.inProgress
      ensures steps[i].status == Available <==> CanGoOn(steps[i].candidate, candidates) && !steps[i].candidate.inProgress
    {
      StatusTold(candidates, i);
      hide BuildSteps, HeldUp;
    }
  }

  lemma CurrentStepFound(steps: seq<Step>)
    requires CurrentStep(steps).Some?
    ensures exists i :: 0 <= i < |steps| && CurrentStep(steps) == Some(steps[i])
                        && (steps[i].status == InProgress || (steps[i].status == Available && forall s <- steps :: s.status != InProgress))
                        && forall j :: 0 <= j < i ==> steps[j].status != steps[i].status
  {
    FindStatusFinds(steps, InProgress);
    FoundFirst(steps, if FindStatus(steps, InProgress).Some? then InProgress else Available);
    hide FindStatus;
  }

  lemma StepAhead(candidates: seq<Candidate>, i: nat, d: Candidate)
    requires DistinctKeys(candidates) && d in candidates && i < |BuildSteps(candidates)| && d != BuildSteps(candidates)[i].candidate
    requires forall n :: 0 <= n < i ==> BuildSteps(candidates)[n].candidate != d
    ensures Ahead(BuildSteps(candidates)[i].candidate, d)
  {
    var sorted := Sort(candidates, Before);
    PathIsSorted(candidates);
    SortMembers(candidates, Before);
    assert forall n :: 0 <= n < |sorted| ==> sorted[n] == BuildSteps(candidates)[n].candidate;
    hide Sort, BuildSteps, Ahead, Before;
    assert d in sorted;
    var n :| 0 <= n < |sorted| && sorted[n] == d;
    SortedAhead(candidates, i, n);
  }

  lemma StepOf(candidates: seq<Candidate>, d: Candidate) returns (n: nat)
    requires d in candidates
    ensures n < |BuildSteps(candidates)| && BuildSteps(candidates)[n].candidate == d
  {
    var sorted := Sort(candidates, Before);
    PathIsSorted(candidates);
    SortMembers(candidates, Before);
    hide Sort, BuildSteps;
    assert d in sorted;
    n :| 0 <= n < |sorted| && sorted[n] == d;
  }

  /** The step to go on with has been begun if any that can be gone on with has; among these it is the first. */
  lemma CurrentStepIs(candidates: seq<Candidate>)
    requires DistinctKeys(candidates) && CurrentStep(BuildSteps(candidates)).Some?
    ensures var c := CurrentStep(BuildSteps(candidates)).value.candidate;
            && c in candidates && CanGoOn(c, candidates)
            && (!c.inProgress ==> forall d <- candidates :: CanGoOn(d, candidates) ==> !d.inProgress)
            && (forall d <- candidates :: CanGoOn(d, candidates) && d.inProgress == c.inProgress && d != c ==> Ahead(c, d))
  {
    var steps := BuildSteps(candidates);
    StatusesTold(candidates);
    CurrentStepFound(steps);
    hide BuildSteps, CanGoOn, CurrentStep, Ahead, DistinctKeys;
    var i :| 0 <= i < |steps| && CurrentStep(steps) == Some(steps[i])
      && (steps[i].status == InProgress || (steps[i].status == Available && forall s <- steps :: s.status != InProgress))
      && forall j :: 0 <= j < i ==> steps[j].status != steps[i].status;
    var c := steps[i].candidate;
    forall d <- candidates | CanGoOn(d, candidates)
      ensures !c.inProgress ==> !d.inProgress
      ensures d.inProgress == c.inProgress && d != c ==> Ahead(c, d)
    {
      var n := StepOf(candidates, d);
      assert steps[n] in steps;
      if d.inProgress == c.inProgress && d != c {
        StepAhead(candidates, i, d);
      }
    }
  }

  // ----- Percentages

  lemma Nearest(x: int, k: nat)
    requires k > 0
    ensures (x / k) * k <= x < (x / k) * k + k
  {
  }

  /** The percentage is the nearest whole number, the upper one when two are as near. */
  lemma PercentRounds(part: nat, whole: nat)
    requires whole > 0
    ensures 0 <= 200 * part + whole - 2 * whole * Percent(part, whole) < 2 * whole
  {
    Nearest(200 * part + whole, 2 * whole);
  }

  // ----- Progress along the path

  function CountRequired(candidates: seq<Candidate>, doneOnly: bool): nat {
    if candidates == [] then 0
    else (if candidates[0].isRequired && (doneOnly ==> candidates[0].completed) then 1 else 0) + CountRequired(candidates[1..], doneOnly)
  }

  lemma {:induction false} CountsAreSelections(candidates: seq<Candidate>)
    ensures |Select(candidates, RequiredCandidate())| == CountRequired(candidates, false)
    ensures |Select(candidates, RequiredDone())| == CountRequired(candidates, true)
  {
    if candidates != [] {
      CountsAreSelections(candidates[1..]);
    }
  }

  lemma {:induction false} AllDoneIff(candidates: seq<Candidate>)
    ensures CountRequired(candidates, true) <= CountRequired(candidates, false)
    ensures CountRequired(candidates, true) == CountRequired(candidates, false) <==> forall c <- candidates :: c.isRequired ==> c.completed
    ensures CountRequired(candidates, false) > 0 <==> exists c <- candidates :: c.isRequired
  {
    if candidates != [] {
      AllDoneIff(candidates[1..]);
      assert forall c :: c in candidates <==> c == candidates[0] || c in candidates[1..];
    }
  }

  /** Progress counts the required candidates and those of them completed, rounds the ratio to the nearest percentage,
    and is complete exactly when there is a required candidate and all of them are completed. */
  lemma ProgressTold(candidates: seq<Candidate>)
    ensures var p := CalculateProgress(BuildSteps(candidates));
            && p.totalSteps == CountRequired(candidates, false) && p.completedSteps == CountRequired(candidates, true)
            && (p.totalSteps == 0 ==> p.percent == 0)
            && (p.totalSteps > 0 ==> 0 <= 200 * p.completedSteps + p.totalSteps - 2 * p.totalSteps * p.percent < 2 * p.totalSteps)
            && (p.completed <==> (exists c <- candidates :: c.isRequired) && forall c <- candidates :: c.isRequired ==> c.completed)
  {
    PathCounts(candidates);
    CountsAreSelections(candidates);
    AllDoneIff(candidates);
    PercentOfProgress(BuildSteps(candidates));
    hide *;
  }

  lemma PercentOfProgress(steps: seq<Step>)
    ensures var p := CalculateProgress(steps);
            && (p.totalSteps == 0 ==> p.percent == 0)
            && (p.totalSteps > 0 ==> 0 <= 200 * p.completedSteps + p.totalSteps - 2 * p.totalSteps * p.percent < 2 * p.totalSteps)
  {
    var required := Select(steps, RequiredStep());
    if |required| > 0 {
      PercentRounds(|Select(required, CompletedStep())|, |required|);
      hide Percent, Select;
    }
  }

  // ----- From the rows of a course to its candidates

  ghost predicate Ended(rows: Rows, userId: nat, lessonId: nat) {
    exists p <- rows.progress :: p.userId == userId && p.lessonId == lessonId && p.status == Done
  }

  ghost predicate Begun(rows: Rows, userId: nat, lessonId: nat) {
    exists p <- rows.progress :: p.userId == userId && p.lessonId == lessonId && (p.status == Started || p.percent > 0)
  }

  lemma {:induction false} FirstProgressTells(progress: seq<ProgressRow>, userId: nat, lessonId: nat)
    requires OneProgressRow(progress)
    ensures var p := FirstProgress(progress, userId, lessonId);
            && (p.Some? <==> exists q <- progress :: q.userId == userId && q.lessonId == lessonId)
            && (p.Some? ==> p.value in progress && forall q <- progress :: q.userId == userId && q.lessonId == lessonId ==> q == p.value)
            && (p.Some? ==> p.value.userId == userId && p.value.lessonId == lessonId)
  {
    if progress != [] {
      FirstProgressTells(progress[1..], userId, lessonId);
      assert forall q :: q in progress <==> q == progress[0] || q in progress[1..];
    }
  }

  ghost predicate OfLesson(rows: Rows, userId: nat, courseId: nat, c: Candidate) {
    exists l <- rows.lessons ::
      && l.courseId == courseId && !l.deleted
      && c.id == l.id && c.stepType == LessonStep && c.title == l.title && c.position == l.orderIndex && c.isRequired == l.isRequired
      && c.completed == Ended(rows, userId, l.id) && c.inProgress == Begun(rows, userId, l.id)
  }

  /** No lesson of the course comes later than `last`, and one comes then unless there is none after 0. */
  ghost predicate LastPosition(rows: Rows, courseId: nat, last: int) {
    && 0 <= last && (forall l <- rows.lessons :: l.courseId == courseId && !l.deleted ==> l.orderIndex <= last)
    && (last == 0 || exists l <- rows.lessons :: l.courseId == courseId && !l.deleted && l.orderIndex == last)
  }

  /** A task is placed with its lesson, or right after all lessons when it has none in the course. */
  ghost predicate Placed(rows: Rows, courseId: nat, lessonId: Option<nat>, position: int) {
    if lessonId.Some? && exists l <- rows.lessons :: l.courseId == courseId && !l.deleted && l.id == lessonId.value
    then exists l <- rows.lessons :: l.courseId == courseId && !l.deleted && l.id == lessonId.value && l.orderIndex == position
    else LastPosition(rows, courseId, position - 1)
  }

  predicate Offered(t: TaskRow, courseId: nat) {
    t.courseId == courseId && !t.deleted && t.published
  }

  ghost predicate OfTask(rows: Rows, courseId: nat, t: TaskRow, c: Candidate) {
    c.id == t.id && c.title == t.title && c.isRequired == t.isRequired && Placed(rows, courseId, t.lessonId, c.position)
  }

  /** An assignment is done, and begun, once something is submitted for it. */
  ghost predicate ForAssignment(rows: Rows, userId: nat, courseId: nat, t: TaskRow, c: Candidate) {
    && OfTask(rows, courseId, t, c) && c.stepType == AssignmentStep
    && c.completed == c.inProgress == exists s <- rows.submissions :: s.assignmentId == t.id && s.userId == userId
  }

  /** A quiz is begun by a submitted attempt and done by one that passed. */
  ghost predicate ForQuiz(rows: Rows, userId: nat, courseId: nat, t: TaskRow, c: Candidate) {
    && OfTask(rows, courseId, t, c) && c.stepType == QuizStep
    && c.inProgress == (exists a <- rows.attempts :: a.quizId == t.id && a.userId == userId && a.submitted)
    && c.completed == (exists a <- rows.attempts :: a.quizId == t.id && a.userId == userId && a.submitted && a.passed == Some(true))
  }

  ghost predicate OfAssignment(rows: Rows, userId: nat, courseId: nat, c: Candidate) {
    exists t <- rows.assignments :: Offered(t, courseId) && ForAssignment(rows, userId, courseId, t, c)
  }

  ghost predicate OfQuiz(rows: Rows, userId: nat, courseId: nat, c: Candidate) {
    exists t <- rows.quizzes :: Offered(t, courseId) && ForQuiz(rows, userId, courseId, t, c)
  }

  lemma {:induction false} MaxPositionIs(lessons: seq<LessonRow>, acc: int)
    ensures var m := MaxPosition(lessons, acc);
            && acc <= m && (forall l <- lessons :: l.orderIndex <= m) && (m == acc || exists l <- lessons :: l.orderIndex == m)
  {
    if lessons != [] {
      MaxPositionIs(lessons[1..], if lessons[0].orderIndex > acc then lessons[0].orderIndex else acc);
      assert forall l :: l in lessons <==> l == lessons[0] || l in lessons[1..];
    }
  }

  lemma {:induction false} TaskPositionIs(lessons: seq<LessonRow>, lessonId: Option<nat>, past: int)
    ensures if lessonId.Some? && exists l <- lessons :: l.id == lessonId.value
            then exists l <- lessons :: l.id == lessonId.value && l.orderIndex == TaskPosition(lessons, lessonId, past)
            else TaskPosition(lessons, lessonId, past) == past
  {
    if lessonId.Some? && lessons != [] {
      var n := |lessons| - 1;
      assert forall l :: l in lessons <==> l == lessons[n] || l in lessons[..n];
      if lessons[n].id != lessonId.value {
        TaskPositionIs(lessons[..n], lessonId, past);
      }
    }
  }

  /** Lessons are told apart by their ids. */
  ghost predicate OneLessonRow(lessons: seq<LessonRow>) {
    forall k, l :: k in lessons && l in lessons && k.id == l.id ==> k == l
  }

  lemma PlacedInLessons(rows: Rows, courseId: nat, lessons: seq<LessonRow>, lessonId: Option<nat>, position: int)
    requires OneLessonRow(rows.lessons)
    requires forall l :: l in lessons <==> l in rows.lessons && l.courseId == courseId && !l.deleted
    ensures position == TaskPosition(lessons, lessonId, MaxPosition(lessons, 0) + 1) <==> Placed(rows, courseId, lessonId, position)
  {
    var last := MaxPosition(lessons, 0);
    MaxPositionIs(lessons, 0);
    TaskPositionIs(lessons, lessonId, last + 1);
    hide MaxPosition, TaskPosition;
    LastPositionIs(rows, courseId, lessons, last, position - 1);
    hide LastPosition;
  }

  lemma LastPositionIs(rows: Rows, courseId: nat, lessons: seq<LessonRow>, m: int, last: int)
    requires forall l :: l in lessons <==> l in rows.lessons && l.courseId == courseId && !l.deleted
    requires 0 <= m && (forall l <- lessons :: l.orderIndex <= m) && (m == 0 || exists l <- lessons :: l.orderIndex == m)
    ensures LastPosition(rows, courseId, last) <==> last == m
  {
  }

  lemma TaskIsPlaced(rows: Rows, courseId: nat, lessonId: Option<nat>, position: int)
    requires OneLessonRow(rows.lessons)
    ensures var lessons := Select(rows.lessons, LessonOf(courseId));
            position == TaskPosition(lessons, lessonId, MaxPosition(lessons, 0) + 1) <==> Placed(rows, courseId, lessonId, position)
  {
    var lessons := Select(rows.lessons, LessonOf(courseId));
    assert forall l :: l in lessons <==> l in rows.lessons && l.courseId == courseId && !l.deleted;
    hide *;
    PlacedInLessons(rows, courseId, lessons, lessonId, position);
  }

  lemma {:induction false} MapMembers<T(!new), U(!new)>(s: seq<T>, f: T -> U, y: U)
    ensures y in Map(s, f) <==> exists x <- s :: f(x) == y
  {
    if s != [] {
      MapMembers(s[1..], f, y);
      assert forall x :: x in s <==> x == s[0] || x in s[1..];
    }
  }

  lemma LessonMembers(rows: Rows, userId: nat, courseId: nat, c: Candidate)
    requires OneProgressRow(rows.progress)
    ensures c in Map(Select(rows.lessons, LessonOf(courseId)), LessonCandidate(rows, userId)) <==> OfLesson(rows, userId, courseId, c)
  {
    var lessons, f := Select(rows.lessons, LessonOf(courseId)), LessonCandidate(rows, userId);
    MapMembers(lessons, f, c);
    hide Map, FirstProgress, Select;
    forall l: LessonRow
      ensures f(l) == Candidate(l.id, LessonStep, l.title, l.orderIndex, l.isRequired, Ended(rows, userId, l.id), Begun(rows, userId, l.id))
    {
      FirstProgressTells(rows.progress, userId, l.id);
    }
    hide LessonCandidate, Ended, Begun;
  }

  lemma TasksOffered(tasks: seq<TaskRow>, courseId: nat)
    ensures forall t :: t in Select(tasks, PublishedIn(courseId)) <==> t in tasks && Offered(t, courseId)
  {
  }

  lemma AssignmentFields(rows: Rows, userId: nat, lessons: seq<LessonRow>, past: int, t: TaskRow)
    ensures AssignmentCandidate(rows, userId, lessons, past)(t)
         == Candidate(t.id, AssignmentStep, t.title, TaskPosition(lessons, t.lessonId, past), t.isRequired, Submitted(rows, userId, t.id), Submitted(rows, userId, t.id))
  {
  }

  lemma AssignmentImage(rows: Rows, userId: nat, courseId: nat, lessons: seq<LessonRow>, t: TaskRow, c: Candidate)
    requires OneLessonRow(rows.lessons) && lessons == Select(rows.lessons, LessonOf(courseId))
    ensures AssignmentCandidate(rows, userId, lessons, MaxPosition(lessons, 0) + 1)(t) == c <==> ForAssignment(rows, userId, courseId, t, c)
  {
    hide Select, MaxPosition, TaskPosition, Placed, AssignmentCandidate, OneLessonRow, LessonOf;
    TaskIsPlaced(rows, courseId, t.lessonId, c.position);
    AssignmentFields(rows, userId, lessons, MaxPosition(lessons, 0) + 1, t);
  }

  lemma AssignmentMembers(rows: Rows, userId: nat, courseId: nat, c: Candidate)
    requires OneLessonRow(rows.lessons)
    ensures var lessons := Select(rows.lessons, LessonOf(courseId));
            c in Map(Select(rows.assignments, PublishedIn(courseId)), AssignmentCandidate(rows, userId, lessons, MaxPosition(lessons, 0) + 1))
            <==> OfAssignment(rows, userId, courseId, c)
  {
    hide Map, Select, MaxPosition, AssignmentCandidate, ForAssignment, Offered, LessonOf, PublishedIn, Placed;
    var lessons := Select(rows.lessons, LessonOf(courseId));
    var f := AssignmentCandidate(rows, userId, lessons, MaxPosition(lessons, 0) + 1);
    var tasks := Select(rows.assignments, PublishedIn(courseId));
    TasksOffered(rows.assignments, courseId);
    MapMembers(tasks, f, c);
    forall t: TaskRow ensures f(t) == c <==> ForAssignment(rows, userId, courseId, t, c) {
      AssignmentImage(rows, userId, courseId, lessons, t, c);
    }
  }

  lemma QuizFields(rows: Rows, userId: nat, lessons: seq<LessonRow>, past: int, t: TaskRow)
    ensures QuizCandidate(rows, userId, lessons, past)(t)
         == Candidate(t.id, QuizStep, t.title, TaskPosition(lessons, t.lessonId, past), t.isRequired, Passed(rows, userId, t.id), Attempted(rows, userId, t.id))
  {
  }

  lemma QuizImage(rows: Rows, userId: nat, courseId: nat, lessons: seq<LessonRow>, t: TaskRow, c: Candidate)
    requires OneLessonRow(rows.lessons) && lessons == Select(rows.lessons, LessonOf(courseId))
    ensures QuizCandidate(rows, userId, lessons, MaxPosition(lessons, 0) + 1)(t) == c <==> ForQuiz(rows, userId, courseId, t, c)
  {
    hide Select, MaxPosition, TaskPosition, Placed, QuizCandidate, OneLessonRow, LessonOf;
    TaskIsPlaced(rows, courseId, t.lessonId, c.position);
    QuizFields(rows, userId, lessons, MaxPosition(lessons, 0) + 1, t);
  }

  lemma QuizMembers(rows: Rows, userId: nat, courseId: nat, c: Candidate)
    requires OneLessonRow(rows.lessons)
    ensures var lessons := Select(rows.lessons, LessonOf(courseId));
            c in Map(Select(rows.quizzes, PublishedIn(courseId)), QuizCandidate(rows, userId, lessons, MaxPosition(lessons, 0) + 1))
            <==> OfQuiz(rows, userId, courseId, c)
  {
    hide Map, Select, MaxPosition, QuizCandidate, ForQuiz, Offered, LessonOf, PublishedIn, Placed;
    var lessons := Select(rows.lessons, LessonOf(courseId));
    var f := QuizCandidate(rows, userId, lessons, MaxPosition(lessons, 0) + 1);
    var tasks := Select(rows.quizzes, PublishedIn(courseId));
    TasksOffered(rows.quizzes, courseId);
    MapMembers(tasks, f, c);
    forall t: TaskRow ensures f(t) == c <==> ForQuiz(rows, userId, courseId, t, c) {
      QuizImage(rows, userId, courseId, lessons, t, c);
    }
  }

  /** The candidates are those of the lessons, assignments and quizzes of the course that are there to be done. */
  lemma CandidatesTold(rows: Rows, userId: nat, courseId: nat, c: Candidate)
    requires OneProgressRow(rows.progress) && OneLessonRow(rows.lessons)
    ensures c in CandidatesOf(rows, userId, courseId) <==>
            OfLesson(rows, userId, courseId, c) || OfAssignment(rows, userId, courseId, c) || OfQuiz(rows, userId, courseId, c)
  {
    LessonMembers(rows, userId, courseId, c);
    AssignmentMembers(rows, userId, courseId, c);
    QuizMembers(rows, userId, courseId, c);
    hide Map, Select, MaxPosition, OfLesson, OfAssignment, OfQuiz;
  }
}
