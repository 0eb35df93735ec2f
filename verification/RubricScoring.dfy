/** Rubric scoring of a submission. */
module RubricScoring {
  import opened Wrappers
  import opened Sorting

  datatype Criterion = Criterion(name: string, maxScore: real)

  datatype Score = Score(name: string, score: real)

  /** A JSON value that should be a list; `None` marks an entry of the wrong shape. */
  datatype Json<T> = NotAList | List(items: seq<Option<T>>)

  datatype Error = ScoresRequired | InvalidRubric | WrongCount | InvalidScore | Mismatch | AboveMaximum

  function Entries<T>(items: seq<Option<T>>): seq<T>
    requires forall x <- items :: x.Some?
  {
    seq(|items|, i requires 0 <= i < |items| => assert items[i] in items; items[i].value)
  }

  function Names(scores: seq<Score>): (r: seq<string>)
    ensures |r| == |scores| && forall i :: 0 <= i < |r| ==> r[i] == scores[i].name
  {
    seq(|scores|, i requires 0 <= i < |scores| => scores[i].name)
  }

  function CriterionNames(criteria: seq<Criterion>): (r: seq<string>)
    ensures |r| == |criteria| && forall i :: 0 <= i < |r| ==> r[i] == criteria[i].name
  {
    seq(|criteria|, i requires 0 <= i < |criteria| => criteria[i].name)
  }

  function SetOf(names: seq<string>): set<string> {
    set x | x in names
  }

  /** `new Map(...)`: a later criterion of the same name replaces an earlier one. */
  function MaxByName(criteria: seq<Criterion>): (m: map<string, real>)
    ensures m.Keys == SetOf(CriterionNames(criteria))
  {
    if criteria == [] then map[]
    else
      var n := |criteria| - 1;
      assert CriterionNames(criteria) == CriterionNames(criteria[..n]) + [criteria[n].name];
      MaxByName(criteria[..n])[criteria[n].name := criteria[n].maxScore]
  }

  function Total(scores: seq<Score>): real {
    if scores == [] then 0.0 else scores[0].score + Total(scores[1..])
  }

  predicate InBounds(s: Score, m: map<string, real>) {
    s.name in m && 0.0 <= s.score <= m[s.name]
  }

  predicate Matches(criteria: seq<Criterion>, scores: seq<Score>) {
    var m := MaxByName(criteria);
    && |scores| == |criteria|
    && |SetOf(Names(scores))| == |scores|
    && forall s <- scores :: InBounds(s, m)
  }

  /** `resolveRubricScore`: nothing without a rubric, otherwise the total of the scores. */
  function ResolveRubricScore(scores: Json<Score>, criteria: Json<Criterion>): Result<Option<real>, Error> {
    if criteria.NotAList? then Success(None)
    else if scores.NotAList? then Failure(ScoresRequired)
    else if exists c <- criteria.items :: c.None? then Failure(InvalidRubric)
    else if |scores.items| != |criteria.items| then Failure(WrongCount)
    else if exists s <- scores.items :: s.None? then Failure(InvalidScore)
    else if !Matches(Entries(criteria.items), Entries(scores.items)) then Failure(Mismatch)
    else Success(Some(Total(Entries(scores.items))))
  }

  /** The score a submission is graded with: the rubric's, or else the one entered. */
  function GradeScore(rubric: Result<Option<real>, Error>, entered: real, maxScore: real): Result<real, Error> {
    if rubric.Failure? then Failure(rubric.error)
    else
      var score := if rubric.value.Some? then rubric.value.value else entered;
      if score > maxScore then Failure(AboveMaximum) else Success(score)
  }

  // ----- What acceptance means

  ghost predicate Distinct(names: seq<string>) {
    forall i, j :: 0 <= i < j < |names| ==> names[i] != names[j]
  }

  lemma {:induction false} DistinctBySize(names: seq<string>)
    ensures |SetOf(names)| <= |names|
    ensures |SetOf(names)| == |names| <==> Distinct(names)
  {
    if names != [] {
      var rest := names[1..];
      DistinctBySize(rest);
      if names[0] in rest {
        assert SetOf(names) == SetOf(rest);
        var k :| 0 <= k < |rest| && rest[k] == names[0];
        assert names[k + 1] == names[0];
      } else {
        assert SetOf(names) == {names[0]} + SetOf(rest);
        assert forall j :: 0 < j < |names| ==> names[j] == rest[j - 1] && names[j] in rest;
      }
    }
  }

  lemma {:induction false} DistinctMultiset(a: seq<string>, b: seq<string>)
    requires Distinct(a) && Distinct(b) && SetOf(a) == SetOf(b)
    ensures multiset(a) == multiset(b)
  {
    forall x ensures multiset(a)[x] == multiset(b)[x] {
      OccursOnce(a, x);
      OccursOnce(b, x);
      assert x in SetOf(a) <==> x in SetOf(b);
    }
  }

  lemma {:induction false} OccursOnce(names: seq<string>, x: string)
    requires Distinct(names)
    ensures multiset(names)[x] == if x in names then 1 else 0
  {
    if names != [] {
      OccursOnce(names[1..], x);
      TailMultiset(names);
      assert names[0] !in names[1..];
    }
  }

  lemma SubsetSize<T>(a: set<T>, b: set<T>)
    requires a <= b && |b| <= |a|
    ensures a == b
  {
    if b - a != {} {
      var x :| x in b - a;
      Smaller(a, b - {x});
    }
  }

  lemma {:induction false} Smaller<T>(a: set<T>, b: set<T>)
    requires a <= b
    ensures |a| <= |b|
    decreases a
  {
    if x :| x in a {
      Smaller(a - {x}, b - {x});
    }
  }

  /** The bound that a criterion sets when names are distinct: its own maximum. */
  lemma {:induction false} MaxOfDistinct(criteria: seq<Criterion>, i: nat)
    requires Distinct(CriterionNames(criteria)) && i < |criteria|
    ensures criteria[i].name in MaxByName(criteria) && MaxByName(criteria)[criteria[i].name] == criteria[i].maxScore
    decreases |criteria|
  {
    var n := |criteria| - 1;
    var names := CriterionNames(criteria);
    if i < n {
      assert names[i] != names[n];
      assert CriterionNames(criteria[..n]) == names[..n];
      MaxOfDistinct(criteria[..n], i);
    }
  }

  /** A score within the bounds of the criterion it names. */
  ghost predicate ScoresItsCriterion(s: Score, criteria: seq<Criterion>) {
    exists c <- criteria :: c.name == s.name && 0.0 <= s.score <= c.maxScore
  }

  /** Scoring is accepted exactly when the criteria have distinct names, the scores name each criterion once,
      and each score is within its criterion's bounds.  A rubric with a repeated name accepts nothing. */
  lemma MatchesIff(criteria: seq<Criterion>, scores: seq<Score>)
    ensures Matches(criteria, scores) <==>
            && Distinct(CriterionNames(criteria))
            && multiset(Names(scores)) == multiset(CriterionNames(criteria))
            && forall s <- scores :: ScoresItsCriterion(s, criteria)
  {
    var names, expected := Names(scores), CriterionNames(criteria);
    DistinctBySize(names);
    DistinctBySize(expected);
    if Matches(criteria, scores) {
      MatchesDistinct(criteria, scores);
      DistinctMultiset(names, expected);
      forall s <- scores ensures ScoresItsCriterion(s, criteria) {
        BoundOfName(criteria, s);
      }
    }
    if Distinct(expected) && multiset(names) == multiset(expected) && forall s <- scores :: ScoresItsCriterion(s, criteria) {
      SameMembers(names, expected);
      assert SetOf(names) == SetOf(expected);
      forall s <- scores ensures InBounds(s, MaxByName(criteria)) {
        BoundOfName(criteria, s);
      }
    }
  }

  /** The pigeonhole: as many distinct scores as criteria leave no criterion name unused or repeated. */
  lemma MatchesDistinct(criteria: seq<Criterion>, scores: seq<Score>)
    requires Matches(criteria, scores)
    ensures Distinct(CriterionNames(criteria)) && Distinct(Names(scores)) && SetOf(Names(scores)) == SetOf(CriterionNames(criteria))
  {
    var names, expected := Names(scores), CriterionNames(criteria);
    DistinctBySize(names);
    DistinctBySize(expected);
    forall x | x in SetOf(names) ensures x in SetOf(expected) {
      var i :| 0 <= i < |names| && names[i] == x;
      assert scores[i] in scores && InBounds(scores[i], MaxByName(criteria));
    }
    SubsetSize(SetOf(names), SetOf(expected));
  }

  lemma BoundOfName(criteria: seq<Criterion>, s: Score)
    requires Distinct(CriterionNames(criteria))
    ensures InBounds(s, MaxByName(criteria)) <==> ScoresItsCriterion(s, criteria)
  {
    var expected := CriterionNames(criteria);
    if s.name in MaxByName(criteria) {
      var i :| 0 <= i < |expected| && expected[i] == s.name;
      MaxOfDistinct(criteria, i);
      assert criteria[i] in criteria;
    }
    forall c <- criteria | c.name == s.name ensures s.name in MaxByName(criteria) && MaxByName(criteria)[s.name] == c.maxScore {
      var i :| 0 <= i < |criteria| && criteria[i] == c;
      MaxOfDistinct(criteria, i);
    }
  }

  // ----- The total

  lemma {:induction false} TotalRemove(scores: seq<Score>, i: nat)
    requires i < |scores|
    ensures Total(scores) == scores[i].score + Total(Without(scores, i))
  {
    if i > 0 {
      TotalRemove(scores[1..], i - 1);
      assert Without(scores, i)[1..] == Without(scores[1..], i - 1);
    } else {
      assert Without(scores, 0) == scores[1..];
    }
  }

  /** The order in which the scores are given changes neither acceptance nor the total. */
  lemma {:induction false} TotalIgnoresOrder(a: seq<Score>, b: seq<Score>)
    requires multiset(a) == multiset(b)
    ensures Total(a) == Total(b)
  {
    SameMembers(a, b);
    if a != [] {
      assert a[0] in b;
      var i :| 0 <= i < |b| && b[i] == a[0];
      TotalRemove(b, i);
      TailMultiset(a);
      WithoutMultiset(b, i);
      hide Without;
      TotalIgnoresOrder(a[1..], Without(b, i));
    }
  }

  lemma MatchesIgnoresOrder(criteria: seq<Criterion>, a: seq<Score>, b: seq<Score>)
    requires multiset(a) == multiset(b)
    ensures Matches(criteria, a) == Matches(criteria, b)
  {
    SameMembers(a, b);
    forall x ensures x in SetOf(Names(a)) <==> x in SetOf(Names(b)) {
      NameOfScore(a, x);
      NameOfScore(b, x);
    }
    assert SetOf(Names(a)) == SetOf(Names(b));
  }

  lemma NameOfScore(scores: seq<Score>, x: string)
    ensures x in SetOf(Names(scores)) <==> exists s <- scores :: s.name == x
  {
    if s :| s in scores && s.name == x {
      var i :| 0 <= i < |scores| && scores[i] == s;
      assert Names(scores)[i] == x;
    }
    if x in Names(scores) {
      var i :| 0 <= i < |scores| && Names(scores)[i] == x;
      assert scores[i] in scores;
    }
  }

  function Maximum(criteria: seq<Criterion>): real {
    if criteria == [] then 0.0 else criteria[0].maxScore + Maximum(criteria[1..])
  }

  /** The criterion maxima in the order of the scores. */
  function BoundsOf(scores: seq<Score>, m: map<string, real>): (r: seq<Score>)
    requires forall s <- scores :: s.name in m
    ensures |r| == |scores| && forall i :: 0 <= i < |r| ==> r[i].name == scores[i].name && r[i].name in m && r[i].score == m[r[i].name]
  {
    seq(|scores|, i requires 0 <= i < |scores| => assert scores[i] in scores; Score(scores[i].name, m[scores[i].name]))
  }

  function AsScores(criteria: seq<Criterion>): (r: seq<Score>)
    ensures |r| == |criteria| && forall i :: 0 <= i < |r| ==> r[i] == Score(criteria[i].name, criteria[i].maxScore)
  {
    seq(|criteria|, i requires 0 <= i < |criteria| => Score(criteria[i].name, criteria[i].maxScore))
  }

  lemma {:induction false} TotalOfCriteria(criteria: seq<Criterion>)
    ensures Total(AsScores(criteria)) == Maximum(criteria)
  {
    if criteria != [] {
      TotalOfCriteria(criteria[1..]);
      assert AsScores(criteria)[1..] == AsScores(criteria[1..]);
    }
  }

  lemma {:induction false} TotalWithinBounds(scores: seq<Score>, m: map<string, real>)
    requires forall s <- scores :: s.name in m && InBounds(s, m)
    ensures 0.0 <= Total(scores) <= Total(BoundsOf(scores, m))
  {
    if scores != [] {
      assert scores[0] in scores;
      TotalWithinBounds(scores[1..], m);
      assert forall s <- scores[1..] :: s in scores;
      assert BoundsOf(scores, m)[1..] == BoundsOf(scores[1..], m);
    }
  }

  /** Totals of scores that agree with `m` depend on their names alone. */
  lemma {:induction false} SameNamesSameTotal(a: seq<Score>, b: seq<Score>, m: map<string, real>)
    requires forall s <- a :: s.name in m && s.score == m[s.name]
    requires forall s <- b :: s.name in m && s.score == m[s.name]
    requires multiset(Names(a)) == multiset(Names(b))
    ensures Total(a) == Total(b)
  {
    if a == [] {
      SameMembers(Names(a), Names(b));
    } else {
      var i := NamesWithoutFirst(a, b);
      assert a[0] in a && b[i] in b;
      TotalRemove(b, i);
      assert forall s <- Without(b, i) :: s in b;
      hide Without, Names;
      SameNamesSameTotal(a[1..], Without(b, i), m);
    }
  }

  /** Where `b` has the name of the first of `a`, and what is left of both. */
  lemma NamesWithoutFirst(a: seq<Score>, b: seq<Score>) returns (i: nat)
    requires a != [] && multiset(Names(a)) == multiset(Names(b))
    ensures i < |b| && b[i].name == a[0].name
    ensures multiset(Names(a[1..])) == multiset(Names(Without(b, i)))
  {
    var c, d := Names(a), Names(b);
    i := FirstIn(c, d);
    TailMultiset(c);
    WithoutMultiset(d, i);
    assert Names(a[1..]) == c[1..];
    assert Names(Without(b, i)) == Without(d, i);
  }

  lemma FirstIn(c: seq<string>, d: seq<string>) returns (i: nat)
    requires c != [] && multiset(c) == multiset(d)
    ensures i < |d| && d[i] == c[0]
  {
    SameMembers(c, d);
    assert c[0] in d;
    i :| 0 <= i < |d| && d[i] == c[0];
  }

  /** An accepted total lies between 0 and the sum of the criterion maxima. */
  lemma TotalBounds(criteria: seq<Criterion>, scores: seq<Score>)
    requires Matches(criteria, scores)
    ensures 0.0 <= Total(scores) <= Maximum(criteria)
  {
    var m := MaxByName(criteria);
    TotalWithinBounds(scores, m);
    MatchesIff(criteria, scores);
    var bounds, maxima := BoundsOf(scores, m), AsScores(criteria);
    forall i | 0 <= i < |criteria| ensures maxima[i].name in m && maxima[i].score == m[maxima[i].name] {
      MaxOfDistinct(criteria, i);
    }
    assert Names(bounds) == Names(scores);
    assert Names(maxima) == CriterionNames(criteria);
    hide Names, CriterionNames, Matches;
    SameNamesSameTotal(bounds, maxima, m);
    TotalOfCriteria(criteria);
  }

  /** A graded score never exceeds the assignment's maximum, and comes from the rubric whenever there is one. */
  lemma GradeWithinMaximum(scores: Json<Score>, criteria: Json<Criterion>, entered: real, maxScore: real)
    ensures var r := GradeScore(ResolveRubricScore(scores, criteria), entered, maxScore);
            r.Success? ==>
              && r.value <= maxScore
              && (criteria.List? ==>
                  && scores.List? && (forall c <- criteria.items :: c.Some?) && (forall s <- scores.items :: s.Some?)
                  && 0.0 <= r.value <= Maximum(Entries(criteria.items))
                  && r.value == Total(Entries(scores.items))
                  && multiset(Names(Entries(scores.items))) == multiset(CriterionNames(Entries(criteria.items))))
              && (criteria.NotAList? ==> r.value == entered)
  {
    var r := GradeScore(ResolveRubricScore(scores, criteria), entered, maxScore);
    if r.Success? && criteria.List? {
      TotalBounds(Entries(criteria.items), Entries(scores.items));
      MatchesIff(Entries(criteria.items), Entries(scores.items));
    }
  }

  /** The points given, added up from the last score. */
  function Points(scores: seq<Score>): real {
    if scores == [] then 0.0 else Points(scores[..|scores| - 1]) + scores[|scores| - 1].score
  }

  lemma {:induction false} TotalIsPoints(scores: seq<Score>)
    ensures Total(scores) == Points(scores)
    decreases |scores|
  {
    if scores != [] {
      var n := |scores| - 1;
      TotalIsPoints(scores[..n]);
      TotalRemove(scores, n);
      assert Without(scores, n) == scores[..n];
    }
  }

  /** A list whose entries all have the right shape. */
  predicate WellShaped<T(==)>(list: Json<T>) {
    list.List? && forall x <- list.items :: x.Some?
  }

  /** A grade is accepted exactly when it is within the assignment's maximum: the score entered where there is no rubric;
    otherwise the points of a well-shaped list that scores each criterion of a well-shaped rubric once, within its bounds. */
  lemma GradeIff(scores: Json<Score>, criteria: Json<Criterion>, entered: real, maxScore: real)
    ensures var r := GradeScore(ResolveRubricScore(scores, criteria), entered, maxScore);
            && (criteria.NotAList? ==> (r.Success? <==> entered <= maxScore) && (r.Success? ==> r.value == entered))
            && (criteria.List? ==>
                  && (r.Success? <==>
                      (WellShaped(criteria) && WellShaped(scores)
                       && Distinct(CriterionNames(Entries(criteria.items)))
                       && multiset(Names(Entries(scores.items))) == multiset(CriterionNames(Entries(criteria.items)))
                       && (forall s <- Entries(scores.items) :: ScoresItsCriterion(s, Entries(criteria.items)))
                       && Points(Entries(scores.items)) <= maxScore))
                  && (r.Success? ==> r.value == Points(Entries(scores.items))))
  {
    if WellShaped(criteria) && WellShaped(scores) {
      var c, s := Entries(criteria.items), Entries(scores.items);
      MatchesIff(c, s);
      TotalIsPoints(s);
      SameMembersIfEqual(Names(s), CriterionNames(c));
      hide Matches, Total, Points, Names, CriterionNames, Distinct, ScoresItsCriterion;
    }
  }

  lemma SameMembersIfEqual(a: seq<string>, b: seq<string>)
    ensures multiset(a) == multiset(b) ==> |a| == |b|
  {
    if multiset(a) == multiset(b) {
      SameMembers(a, b);
    }
  }
}
