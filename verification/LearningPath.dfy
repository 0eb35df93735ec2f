/** The learning path of a course: its steps in order, which of them are locked, and the progress along it. */
module LearningPath {
  import opened Wrappers
  import opened Sorting

  datatype StepType = LessonStep | AssignmentStep | QuizStep

  /** A step before its status is known; identifiers are numbers ordered as their text is. */
  datatype Candidate = Candidate(
    id: nat, stepType: StepType, title: string, position: int, isRequired: bool, completed: bool, inProgress: bool)

  datatype Status = Locked | Available | InProgress | Completed

  /** `lockedBy` is the title quoted in the reason for locking. */
  datatype Step = Step(candidate: Candidate, status: Status, lockedBy: Option<string>)

  function TypeOrder(t: StepType): int {
    match t
    case LessonStep => 0
    case AssignmentStep => 1
    case QuizStep => 2
  }

  /** Position first, then lessons before assignments before quizzes, then the identifier. */
  predicate Before(a: Candidate, b: Candidate) {
    if a.position != b.position then a.position < b.position
    else if a.stepType != b.stepType then TypeOrder(a.stepType) < TypeOrder(b.stepType)
    else a.id <= b.id
  }

  predicate SameKey(a: Candidate, b: Candidate) {
    a.position == b.position && a.stepType == b.stepType && a.id == b.id
  }

  ghost predicate DistinctKeys(candidates: seq<Candidate>) {
    forall i, j :: 0 <= i < j < |candidates| ==> !SameKey(candidates[i], candidates[j])
  }

  // ----- Building the steps

  function MarkOne(c: Candidate, blocker: Option<Step>): Step {
    if c.completed then Step(c, Completed, None)
    else if blocker.Some? && blocker.value.status != Completed then Step(c, Locked, Some(blocker.value.candidate.title))
    else Step(c, if c.inProgress then InProgress else Available, None)
  }

  function NextBlocker(c: Candidate, blocker: Option<Step>): Option<Step> {
    if blocker.None? && c.isRequired && !c.completed then Some(MarkOne(c, blocker)) else blocker
  }

  function Mark(sorted: seq<Candidate>, blocker: Option<Step>): seq<Step> {
    if sorted == [] then []
    else [MarkOne(sorted[0], blocker)] + Mark(sorted[1..], NextBlocker(sorted[0], blocker))
  }

  function BuildSteps(candidates: seq<Candidate>): seq<Step> {
    Mark(Sort(candidates, Before), None)
  }

  method BuildLearningPathSteps(candidates: seq<Candidate>) returns (steps: seq<Step>)
    ensures steps == BuildSteps(candidates)
  {
    hide Sort, Before;
    var sorted := Sort(candidates, Before);
    var previousStep: Option<Step> := None;
    steps := [];
    for i := 0 to |sorted|
      invariant steps + Mark(sorted[i..], previousStep) == BuildSteps(candidates)
    {
      var candidate := sorted[i];
      var step;
      if candidate.completed {
        step := Step(candidate, Completed, None);
      } else if previousStep.Some? && previousStep.value.status != Completed {
        step := Step(candidate, Locked, Some(previousStep.value.candidate.title));
      } else {
        step := Step(candidate, if candidate.inProgress then InProgress else Available, None);
      }
      assert sorted[i..][1..] == sorted[i + 1..];
      steps := steps + [step];
      if previousStep.None? && candidate.isRequired && !candidate.completed {
        previousStep := Some(step);
      }
    }
  }

  // ----- Gating

  /** A required step that is still open. */
  predicate Blocks(c: Candidate) {
    c.isRequired && !c.completed
  }

  lemma {:induction false} MarkAt(sorted: seq<Candidate>, blocker: Option<Step>, i: nat)
    requires i < |sorted|
    requires blocker.Some? ==> blocker.value.status != Completed
    ensures |Mark(sorted, blocker)| == |sorted|
    ensures var s := Mark(sorted, blocker)[i];
            && s.candidate == sorted[i]
            && (s.status == Completed <==> sorted[i].completed)
            && (s.status == Locked <==> !sorted[i].completed && (blocker.Some? || exists j :: 0 <= j < i && Blocks(sorted[j])))
            && (s.status == InProgress ==> sorted[i].inProgress)
            && (s.status == Available ==> !sorted[i].inProgress)
    decreases |sorted|
  {
    var next := NextBlocker(sorted[0], blocker);
    if i > 0 {
      MarkAt(sorted[1..], next, i - 1);
      if blocker.None? && !Blocks(sorted[0]) {
        forall j | 0 <= j < i && Blocks(sorted[j]) ensures j > 0 && Blocks(sorted[1..][j - 1]) {
        }
      }
    } else if |sorted| > 1 {
      MarkAt(sorted[1..], next, 0);
    }
  }

  /** The reason given for locking names the first required open step. */
  lemma {:induction false} LockedByFirst(sorted: seq<Candidate>, blocker: Option<Step>, k: nat, i: nat)
    requires k < i < |sorted| && !sorted[i].completed && Blocks(sorted[k]) && blocker.None?
    requires forall j :: 0 <= j < k ==> !Blocks(sorted[j])
    ensures |Mark(sorted, blocker)| == |sorted| && Mark(sorted, blocker)[i].lockedBy == Some(sorted[k].title)
  {
    MarkLength(sorted, blocker);
    if k > 0 {
      LockedByFirst(sorted[1..], blocker, k - 1, i - 1);
    } else {
      var next := Some(MarkOne(sorted[0], blocker));
      BlockedFrom(sorted[1..], next, i - 1);
    }
  }

  lemma {:induction false} BlockedFrom(sorted: seq<Candidate>, blocker: Option<Step>, i: nat)
    requires i < |sorted| && !sorted[i].completed && blocker.Some? && blocker.value.status != Completed
    ensures |Mark(sorted, blocker)| == |sorted| && Mark(sorted, blocker)[i].lockedBy == Some(blocker.value.candidate.title)
  {
    MarkLength(sorted, blocker);
    if i > 0 {
      BlockedFrom(sorted[1..], blocker, i - 1);
    }
  }

  lemma BeforeIsPreorder()
    ensures TotalPreorder(Before)
  {
  }

  lemma KeysUntied(candidates: seq<Candidate>)
    requires DistinctKeys(candidates)
    ensures NoTies(candidates, Before)
  {
    forall x, y | x in candidates && y in candidates && Before(x, y) && Before(y, x) ensures x == y {
      var i :| 0 <= i < |candidates| && candidates[i] == x;
      var j :| 0 <= j < |candidates| && candidates[j] == y;
      assert SameKey(x, y);
    }
  }

  /** The status a candidate should have, told from the whole set of candidates. */
  ghost function StatusAmong(c: Candidate, candidates: seq<Candidate>): Status {
    if c.completed then Completed
    else if Gated(c, candidates) then Locked
    else if c.inProgress then InProgress
    else Available
  }

  /** Some earlier step is required and open. */
  ghost predicate Gated(c: Candidate, candidates: seq<Candidate>) {
    exists b <- candidates :: Blocks(b) && Before(b, c) && b != c
  }

  lemma EarlierIndex(sorted: seq<Candidate>, j: nat, i: nat)
    requires Sorted(sorted, Before) && NoTies(sorted, Before) && i < |sorted| && j < |sorted|
    requires Before(sorted[j], sorted[i]) && sorted[j] != sorted[i]
    ensures j < i
  {
    hide Before;
    assert sorted[i] in sorted && sorted[j] in sorted;
  }

  lemma GatedBySorted(candidates: seq<Candidate>, i: nat)
    requires DistinctKeys(candidates) && i < |Sort(candidates, Before)|
    ensures var sorted := Sort(candidates, Before);
            Gated(sorted[i], candidates) <==> exists j :: 0 <= j < i && Blocks(sorted[j])
  {
    var sorted := Sort(candidates, Before);
    BeforeIsPreorder();
    SortSorts(candidates, Before);
    SortMembers(candidates, Before);
    KeysUntied(candidates);
    hide Sort, Blocks, Before;
    var c := sorted[i];
    assert NoTies(sorted, Before);
    if b :| b in candidates && Blocks(b) && Before(b, c) && b != c {
      assert b in sorted;
      var j :| 0 <= j < |sorted| && sorted[j] == b;
      EarlierIndex(sorted, j, i);
    }
    forall j | 0 <= j < i && Blocks(sorted[j]) ensures Gated(c, candidates) {
      assert sorted[j] in sorted && Before(sorted[j], sorted[i]);
      SortedDistinct(candidates, j, i);
    }
  }

  /** A step is locked iff it is open and some earlier step is required and open;
      each candidate becomes exactly one step, in the order of position, type and identifier. */
  lemma StepStatus(candidates: seq<Candidate>, i: nat)
    requires DistinctKeys(candidates) && i < |candidates|
    ensures |BuildSteps(candidates)| == |candidates| == |Sort(candidates, Before)|
    ensures BuildSteps(candidates)[i].candidate == Sort(candidates, Before)[i]
    ensures BuildSteps(candidates)[i].status == StatusAmong(BuildSteps(candidates)[i].candidate, candidates)
  {
    var sorted := Sort(candidates, Before);
    SortMembers(candidates, Before);
    hide Sort, Before;
    MarkLength(sorted, None);
    MarkAt(sorted, None, i);
    GatedBySorted(candidates, i);
  }

  lemma {:induction false} MarkLength(sorted: seq<Candidate>, blocker: Option<Step>)
    ensures |Mark(sorted, blocker)| == |sorted|
  {
    if sorted != [] {
      MarkLength(sorted[1..], NextBlocker(sorted[0], blocker));
    }
  }

  /** Distinct keys leave no candidate twice in the sorted list. */
  lemma SortedDistinct(candidates: seq<Candidate>, i: nat, j: nat)
    requires DistinctKeys(candidates) && i < j < |Sort(candidates, Before)|
    ensures Sort(candidates, Before)[i] != Sort(candidates, Before)[j]
  {
    var sorted := Sort(candidates, Before);
    hide Sort;
    AtMostOnce(candidates, sorted[i]);
    TwoOccurrences(sorted, i, j);
  }

  lemma TwoOccurrences(s: seq<Candidate>, i: nat, j: nat)
    requires i < j < |s|
    ensures s[i] == s[j] ==> multiset(s)[s[i]] >= 2
  {
    assert s == s[..j] + [s[j]] + s[j + 1..];
    assert s[i] in s[..j];
    assert multiset(s[..j])[s[i]] >= 1;
  }

  lemma {:induction false} AtMostOnce(candidates: seq<Candidate>, c: Candidate)
    requires DistinctKeys(candidates)
    ensures multiset(candidates)[c] <= 1
  {
    if candidates != [] {
      AtMostOnce(candidates[1..], c);
      TailMultiset(candidates);
      if candidates[0] == c {
        assert forall j :: 0 < j < |candidates| ==> SameKey(c, c) && candidates[j] != c;
        assert c !in candidates[1..];
      }
    }
  }

  /** The path does not depend on the order in which the rows were read. */
  lemma PathIgnoresInputOrder(a: seq<Candidate>, b: seq<Candidate>)
    requires DistinctKeys(a) && multiset(a) == multiset(b)
    ensures BuildSteps(a) == BuildSteps(b)
  {
    BeforeIsPreorder();
    KeysUntied(a);
    SortIgnoresInputOrder(a, b, Before);
  }

  // ----- Completing steps

  /** The candidates once `done` has been completed. */
  function Complete(candidates: seq<Candidate>, done: Candidate): (r: seq<Candidate>)
    ensures |r| == |candidates|
    ensures forall i :: 0 <= i < |r| ==> r[i] == if candidates[i] == done then done.(completed := true) else candidates[i]
  {
    seq(|candidates|, i requires 0 <= i < |candidates| => if candidates[i] == done then done.(completed := true) else candidates[i])
  }

  /** Completing a step locks no other step. */
  lemma CompletingNeverLocks(candidates: seq<Candidate>, done: Candidate, c: Candidate)
    requires c in candidates && c != done && done in candidates && DistinctKeys(candidates)
    ensures StatusAmong(c, Complete(candidates, done)) == Locked ==> StatusAmong(c, candidates) == Locked
    ensures DistinctKeys(Complete(candidates, done)) && c in Complete(candidates, done)
  {
    var after := Complete(candidates, done);
    var k :| 0 <= k < |candidates| && candidates[k] == c;
    assert after[k] == c;
    if b :| b in after && Blocks(b) && Before(b, c) && b != c {
      var j :| 0 <= j < |after| && after[j] == b;
      assert candidates[j] in candidates && candidates[j] == b;
    }
    forall i, j | 0 <= i < j < |after| ensures !SameKey(after[i], after[j]) {
      assert !SameKey(candidates[i], candidates[j]);
    }
  }

  function FindStatus(steps: seq<Step>, status: Status): Option<Step> {
    if steps == [] then None
    else if steps[0].status == status then Some(steps[0])
    else FindStatus(steps[1..], status)
  }

  /** The step to go on with: the first one in progress, or else the first one available. */
  function CurrentStep(steps: seq<Step>): Option<Step> {
    var started := FindStatus(steps, InProgress);
    if started.Some? then started else FindStatus(steps, Available)
  }

  lemma {:induction false} FindStatusFinds(steps: seq<Step>, status: Status)
    ensures var f := FindStatus(steps, status);
            && (f.Some? ==> f.value in steps && f.value.status == status)
            && (f.None? ==> forall s <- steps :: s.status != status)
  {
    if steps != [] {
      FindStatusFinds(steps[1..], status);
      assert forall s :: s in steps <==> s == steps[0] || s in steps[1..];
    }
  }

  /** There is nothing to go on with exactly when every step is completed. */
  lemma CurrentStepNoneIff(candidates: seq<Candidate>)
    ensures CurrentStep(BuildSteps(candidates)).None? <==> forall c <- candidates :: c.completed
    ensures CurrentStep(BuildSteps(candidates)).Some? ==>
              var c := CurrentStep(BuildSteps(candidates)).value.candidate; c in candidates && !c.completed
  {
    var steps, sorted := BuildSteps(candidates), Sort(candidates, Before);
    MarkLength(sorted, None);
    SortMembers(candidates, Before);
    FindStatusFinds(steps, InProgress);
    FindStatusFinds(steps, Available);
    hide Sort, Mark, FindStatus;
    forall s <- steps ensures s.candidate in candidates && (s.status == Completed <==> s.candidate.completed) {
      var i :| 0 <= i < |steps| && steps[i] == s;
      MarkAt(sorted, None, i);
      assert sorted[i] in sorted;
    }
    if c :| c in candidates && !c.completed {
      assert c in sorted;
      var k := FirstOpen(sorted);
      MarkAt(sorted, None, k);
      assert steps[k] in steps && steps[k].status != Locked && steps[k].status != Completed;
    }
  }

  lemma {:induction false} FirstOpen(sorted: seq<Candidate>) returns (k: nat)
    requires exists c <- sorted :: !c.completed
    ensures k < |sorted| && !sorted[k].completed && forall j :: 0 <= j < k ==> sorted[j].completed
  {
    if !sorted[0].completed {
      k := 0;
    } else {
      var c :| c in sorted && !c.completed;
      assert c in sorted[1..];
      k := FirstOpen(sorted[1..]);
      k := k + 1;
    }
  }

  function Open(candidates: seq<Candidate>): nat {
    if candidates == [] then 0 else (if candidates[0].completed then 0 else 1) + Open(candidates[1..])
  }

  /** Going on with the current step, `rounds` times over. */
  function AfterRounds(candidates: seq<Candidate>, rounds: nat): seq<Candidate>
    decreases rounds
  {
    var current := CurrentStep(BuildSteps(candidates));
    if rounds == 0 || current.None? then candidates
    else AfterRounds(Complete(candidates, current.value.candidate), rounds - 1)
  }

  lemma {:induction false} OpenFalls(candidates: seq<Candidate>, done: Candidate)
    ensures Open(Complete(candidates, done)) <= Open(candidates)
    ensures done in candidates && !done.completed ==> Open(Complete(candidates, done)) < Open(candidates)
  {
    if candidates != [] {
      OpenFalls(candidates[1..], done);
      assert Complete(candidates, done)[1..] == Complete(candidates[1..], done);
    }
  }

  lemma {:induction false} NoneOpen(candidates: seq<Candidate>)
    requires Open(candidates) == 0
    ensures forall c <- candidates :: c.completed
  {
    if candidates != [] {
      NoneOpen(candidates[1..]);
    }
  }

  /** Completing the current step as often as there are open steps finishes the path. */
  lemma {:induction false} FinishesInRounds(candidates: seq<Candidate>, rounds: nat)
    requires Open(candidates) <= rounds
    ensures forall c <- AfterRounds(candidates, rounds) :: c.completed
    ensures CurrentStep(BuildSteps(AfterRounds(candidates, rounds))).None?
    decreases rounds
  {
    hide CurrentStep, BuildSteps;
    CurrentStepNoneIff(candidates);
    var current := CurrentStep(BuildSteps(candidates));
    if rounds == 0 {
      NoneOpen(candidates);
    } else if current.Some? {
      OpenFalls(candidates, current.value.candidate);
      FinishesInRounds(Complete(candidates, current.value.candidate), rounds - 1);
    }
  }

  // ----- Progress

  datatype Progress = Progress(completedSteps: nat, totalSteps: nat, percent: int, completed: bool)

  /** `Math.round(100 * part / whole)`, halves rounded up. */
  function Percent(part: nat, whole: nat): int
    requires whole > 0
  {
    (200 * part + whole) / (2 * whole)
  }

  function RequiredStep(): Step -> bool { (s: Step) => s.candidate.isRequired }

  function CompletedStep(): Step -> bool { (s: Step) => s.status == Completed }

  function CalculateProgress(steps: seq<Step>): Progress {
    var required := Select(steps, RequiredStep());
    var done := |Select(required, CompletedStep())|;
    Progress(done, |required|, if |required| == 0 then 0 else Percent(done, |required|), |required| > 0 && done == |required|)
  }
}
