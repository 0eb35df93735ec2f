/** Exactly-once ordering: what counts as the same request, and what repeating one does. */
module CommerceReplays {
  import opened Wrappers
  import opened Sorting
  import opened Commerce

  // ----- Requests that differ only in the order of their lists

  /** Any two members of a list stand at two places of it, whatever its order. */
  lemma TwoPlaces<T>(s: seq<T>, a: T, b: T) returns (i: nat, j: nat)
    requires if a == b then multiset(s)[a] >= 2 else a in s && b in s
    ensures i < j < |s| && ((s[i] == a && s[j] == b) || (s[i] == b && s[j] == a))
  {
    if a == b {
      assert a in multiset(s);
      i :| i < |s| && s[i] == a;
      WithoutMultiset(s, i);
      assert a in multiset(Without(s, i));
      var k :| 0 <= k < |Without(s, i)| && Without(s, i)[k] == a;
      j := if k < i then k else k + 1;
    } else {
      i :| i < |s| && s[i] == a;
      j :| j < |s| && s[j] == b;
    }
    if j < i {
      i, j := j, i;
    }
  }

  /** A symmetric condition on every two members does not depend on their order. */
  lemma PairsIgnoreOrder<T(!new)>(s: seq<T>, t: seq<T>, related: (T, T) -> bool)
    requires multiset(s) == multiset(t) && forall x, y :: related(x, y) ==> related(y, x)
    requires forall i, j :: 0 <= i < j < |s| ==> related(s[i], s[j])
    ensures forall i, j :: 0 <= i < j < |t| ==> related(t[i], t[j])
  {
    forall i, j | 0 <= i < j < |t| ensures related(t[i], t[j]) {
      SameMembers(s, t);
      if t[i] == t[j] {
        assert t == t[..i] + [t[i]] + t[i + 1..j] + [t[j]] + t[j + 1..];
      }
      var m, n := TwoPlaces(s, t[i], t[j]);
    }
  }

  function OtherId(): (nat, nat) -> bool { (a: nat, b: nat) => a != b }

  function OtherTarget(): (Application, Application) -> bool { (a: Application, b: Application) => a.courseId != b.courseId }

  lemma DistinctIgnoresOrder(s: seq<nat>, t: seq<nat>)
    requires multiset(s) == multiset(t) && DistinctIds(s)
    ensures DistinctIds(t)
  {
    PairsIgnoreOrder(s, t, OtherId());
    assert forall i, j :: 0 <= i < j < |t| ==> OtherId()(t[i], t[j]);
  }

  lemma TargetsIgnoreOrder(s: seq<Application>, t: seq<Application>)
    requires multiset(s) == multiset(t) && DistinctTargets(s)
    ensures DistinctTargets(t)
  {
    PairsIgnoreOrder(s, t, OtherTarget());
    assert forall i, j :: 0 <= i < j < |t| ==> OtherTarget()(t[i], t[j]);
  }

  predicate SamePayload(courses: Option<seq<nat>>, applications: seq<Application>, courses': Option<seq<nat>>, applications': seq<Application>) {
    && courses.Some? == courses'.Some?
    && (courses.Some? ==> multiset(courses.value) == multiset(courses'.value))
    && multiset(applications) == multiset(applications')
  }

  /** Two accepted payloads are one request exactly when their lists have the same members. */
  lemma SameRequestIff(courses: Option<seq<nat>>, applications: seq<Application>, courses': Option<seq<nat>>, applications': seq<Application>)
    requires Normalize(courses, applications).Success? && Normalize(courses', applications').Success?
    ensures Normalize(courses, applications) == Normalize(courses', applications')
       <==> SamePayload(courses, applications, courses', applications')
  {
    if SamePayload(courses, applications, courses', applications') {
      if courses.Some? {
        SortIgnoresInputOrder(courses.value, courses'.value, AtMost);
      }
      SortIgnoresInputOrder(applications, applications', ByCourse);
    }
  }

  /** Reordering the lists of a payload changes nothing, refusals included. */
  lemma NormalizeIgnoresOrder(courses: Option<seq<nat>>, applications: seq<Application>, courses': Option<seq<nat>>, applications': seq<Application>)
    requires SamePayload(courses, applications, courses', applications')
    ensures Normalize(courses, applications) == Normalize(courses', applications')
  {
    if courses.Some? {
      SameMembers(courses.value, courses'.value);
      if DistinctIds(courses.value) || DistinctIds(courses'.value) {
        if DistinctIds(courses.value) {
          DistinctIgnoresOrder(courses.value, courses'.value);
        } else {
          DistinctIgnoresOrder(courses'.value, courses.value);
        }
      }
    }
    if DistinctTargets(applications) {
      TargetsIgnoreOrder(applications, applications');
    } else if DistinctTargets(applications') {
      TargetsIgnoreOrder(applications', applications);
    }
    if Normalize(courses, applications).Success? {
      SameRequestIff(courses, applications, courses', applications');
    }
  }

  // ----- Repeated requests

  /** Records and orders, once written, stay. */
  ghost predicate Extends(later: Store, s: Store) {
    && s.orders <= later.orders
    && forall k <- s.records :: k in later.records && later.records[k] == s.records[k]
  }

  lemma StepExtends(s: Store, op: Op)
    ensures Extends(Step(s, op), s)
  {
    hide Normalize, CheckoutError, PriceLines, Select, ActiveCart, PurchaseError, Owns, EnsureProduct, ValidKey;
  }

  lemma {:induction false} RunExtends(s: Store, ops: seq<Op>)
    ensures Extends(Run(s, ops), s)
    decreases |ops|
  {
    hide Step;
    if ops != [] {
      StepExtends(s, ops[0]);
      RunExtends(Step(s, ops[0]), ops[1..]);
    }
  }

  /** An accepted order leaves a completed record of its request under its key. */
  lemma OrderRecords(s: Store, buyer: nat, key: string, courses: Option<seq<nat>>, applications: seq<Application>, evaluate: Evaluator, now: int)
    requires CreateOrder(s, buyer, key, courses, applications, evaluate, now).1.Success?
    ensures var (s1, r) := CreateOrder(s, buyer, key, courses, applications, evaluate, now);
            && ValidKey(key) && Normalize(courses, applications).Success?
            && (buyer, key) in s1.records
            && s1.records[(buyer, key)] == Record(Normalize(courses, applications).value, true, r.value)
  {
    hide Normalize, CheckoutError, PriceLines, Select, ActiveCart, ValidKey;
  }

  /** After an accepted order, whatever happens in between, the same request under the same key returns the
    same order and writes nothing; another request under that key is refused and writes nothing. */
  lemma ReplayIsInert(s: Store, buyer: nat, key: string, courses: Option<seq<nat>>, applications: seq<Application>, evaluate: Evaluator, now: int,
                      between: seq<Op>, courses': Option<seq<nat>>, applications': seq<Application>, evaluate': Evaluator, now': int)
    requires CreateOrder(s, buyer, key, courses, applications, evaluate, now).1.Success?
    ensures var (s1, r) := CreateOrder(s, buyer, key, courses, applications, evaluate, now);
            var later := Run(s1, between);
            var (after, r') := CreateOrder(later, buyer, key, courses', applications', evaluate', now');
            && after == later
            && s1.orders <= later.orders
            && (SamePayload(courses, applications, courses', applications') ==> r' == r)
            && (!SamePayload(courses, applications, courses', applications') ==> r'.Failure?)
  {
    OrderRecords(s, buyer, key, courses, applications, evaluate, now);
    var s1 := CreateOrder(s, buyer, key, courses, applications, evaluate, now).0;
    RunExtends(s1, between);
    if SamePayload(courses, applications, courses', applications') {
      NormalizeIgnoresOrder(courses, applications, courses', applications');
    } else if Normalize(courses', applications').Success? {
      SameRequestIff(courses, applications, courses', applications');
    }
    hide Normalize, CheckoutError, PriceLines, Select, ActiveCart, ValidKey, SamePayload, Run, Place;
  }

  lemma {:induction false} RunConcat(s: Store, a: seq<Op>, b: seq<Op>)
    ensures Run(s, a + b) == Run(Run(s, a), b)
    decreases |a|
  {
    hide Step;
    if a == [] {
      assert a + b == b;
    } else {
      assert (a + b)[1..] == a[1..] + b;
      RunConcat(Step(s, a[0]), a[1..], b);
    }
  }

  /** A repeat of an accepted order, or another request under its key, may be put anywhere after it in a run: the
    final state is the same. */
  lemma ReplaysAnywhere(s: Store, buyer: nat, key: string, courses: Option<seq<nat>>, applications: seq<Application>, evaluate: Evaluator, now: int,
                        between: seq<Op>, courses': Option<seq<nat>>, applications': seq<Application>, evaluate': Evaluator, now': int, rest: seq<Op>)
    requires CreateOrder(s, buyer, key, courses, applications, evaluate, now).1.Success?
    ensures var first := CreateOrderOp(buyer, key, courses, applications, evaluate, now);
            var replay := CreateOrderOp(buyer, key, courses', applications', evaluate', now');
            Run(s, [first] + between + [replay] + rest) == Run(s, [first] + between + rest)
  {
    var first := CreateOrderOp(buyer, key, courses, applications, evaluate, now);
    var replay := CreateOrderOp(buyer, key, courses', applications', evaluate', now');
    ReplayIsInert(s, buyer, key, courses, applications, evaluate, now, between, courses', applications', evaluate', now');
    hide CreateOrder;
    RunConcat(s, [first] + between, rest);
    RunConcat(s, [first] + between + [replay], rest);
    RunConcat(s, [first] + between, [replay]);
    RunConcat(s, [first], between);
    var later := Run(s, [first] + between);
    assert Run(s, [first]) == Step(s, first);
    assert Run(later, [replay]) == Step(later, replay);
  }
}
