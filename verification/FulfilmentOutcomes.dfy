/** When a membership order is fulfilled, and every row that this writes, in terms of the tables alone. */
module FulfilmentOutcomes {
  import opened Wrappers
  import opened Sorting
  import opened MembershipCheckout
  import opened MembershipFulfilment
  import opened MembershipCheckoutLaws
  import opened FulfilmentLaws
  import Fulfilment = MembershipFulfilment
  import MembershipContinuity
  import ContinuityLaws
  import CourseAccess

  // ----- The conditions

  /** No active term of the user has any instant in common with this one. */
  predicate NothingOverlaps(subscriptions: seq<Subscription>, i: Intent) {
    forall x <- subscriptions :: x.userId == i.userId && x.active ==> x.expiresAt <= i.startsAt || i.endsAt <= x.startsAt
  }

  predicate TermThere(subscriptions: seq<Subscription>, order: nat) {
    exists x <- subscriptions :: x.order == Some(order)
  }

  predicate UsableId(id: string) {
    1 <= |id| <= 128
  }

  /** The courses of the version bought can be granted. */
  predicate CoursesGrantable(p: Platform, order: nat)
    requires order < |p.sales.intents|
  {
    var i := p.sales.intents[order];
    i.versionId < |p.sales.versions| && p.sales.versions[i.versionId].included != [] ==> UsableId(p.lineIds(order)) && i.startsAt < i.endsAt
  }

  /** The graces recorded for the order can be granted. */
  predicate GracesGrantable(p: Platform, order: nat) {
    forall x <- p.sales.snapshots :: x.intentId == order && x.removed.graceStartsAt.Some? && x.removed.graceEndsAt.Some? ==>
      UsableId(p.lineIds(order) + ":" + p.courseText(x.removed.courseId)) && x.removed.graceStartsAt.value < x.removed.graceEndsAt.value
  }

  lemma {:induction false} GrantEachIff(s: CourseAccess.Store, inputs: seq<CourseAccess.GrantInput>)
    ensures GrantEach(s, inputs).1.Success? <==> forall i <- inputs :: CourseAccess.ValidInput(i)
    decreases |inputs|
  {
    if inputs != [] {
      var (s1, r) := CourseAccess.EnsureGrant(s, inputs[0]);
      assert forall i :: i in inputs <==> i == inputs[0] || i in inputs[1..];
      GrantEachIff(s1, inputs[1..]);
    }
  }

  lemma CourseInputsTold(p: Platform, order: nat)
    requires order < |p.sales.intents|
    ensures var i := p.sales.intents[order];
            forall input :: input in CourseInputs(p, order) <==>
              i.versionId < |p.sales.versions|
              && exists item <- p.sales.versions[i.versionId].included ::
                   input == CourseAccess.GrantInput(i.userId, item.courseId, CourseAccess.Membership, p.lineIds(order), i.startsAt, Some(i.endsAt), None)
  {
    var i := p.sales.intents[order];
    var f := CourseInput(i, p.lineIds(order));
    SortMembers(IncludedIn(p.sales, i), Fulfilment.ByCourse);
    ContinuityLaws.MapMembers(Sort(IncludedIn(p.sales, i), Fulfilment.ByCourse), f);
    hide Sort, Map;
  }

  /** The snapshot gives this grace. */
  predicate GraceFrom(x: MembershipContinuity.Snapshot, p: Platform, order: nat, input: CourseAccess.GrantInput)
    requires order < |p.sales.intents|
  {
    && x.intentId == order && x.removed.graceStartsAt.Some? && x.removed.graceEndsAt.Some?
    && input == CourseAccess.GrantInput(
                  p.sales.intents[order].userId, x.removed.courseId, CourseAccess.MembershipGrace,
                  p.lineIds(order) + ":" + p.courseText(x.removed.courseId), x.removed.graceStartsAt.value, x.removed.graceEndsAt, None)
  }

  lemma GraceInputsTold(p: Platform, order: nat)
    requires order < |p.sales.intents|
    ensures forall input :: input in GraceInputs(p, order) <==> exists x <- p.sales.snapshots :: GraceFrom(x, p, order, input)
  {
    var i := p.sales.intents[order];
    var f := GraceInput(i, p.lineIds(order), p.courseText);
    var due := MembershipContinuity.DueSnapshots(p.sales.snapshots, order);
    ContinuityLaws.DueMembers(p.sales.snapshots, order);
    ContinuityLaws.MapMembers(due, f);
    hide MembershipContinuity.DueSnapshots, Map;
    forall x: MembershipContinuity.Snapshot, input
      ensures MembershipContinuity.Due(order)(x) && f(x) == input <==> GraceFrom(x, p, order, input)
    {
    }
    assert GraceInputs(p, order) == Map(due, f);
    hide GraceFrom, GraceInput, GraceInputs;
  }

  lemma GrantableIff(p: Platform, order: nat)
    requires order < |p.sales.intents|
    ensures (forall i <- CourseInputs(p, order) :: CourseAccess.ValidInput(i)) <==> CoursesGrantable(p, order)
    ensures (forall i <- GraceInputs(p, order) :: CourseAccess.ValidInput(i)) <==> GracesGrantable(p, order)
  {
    CourseInputsTold(p, order);
    GraceInputsTold(p, order);
    CoursesGrantableIff(p, order);
    GracesGrantableIff(p, order);
  }

  lemma CoursesGrantableIff(p: Platform, order: nat)
    requires order < |p.sales.intents|
    ensures (forall i <- CourseInputs(p, order) :: CourseAccess.ValidInput(i)) <==> CoursesGrantable(p, order)
  {
    CourseInputsTold(p, order);
    var i := p.sales.intents[order];
    hide CourseInputs;
    if i.versionId < |p.sales.versions| && p.sales.versions[i.versionId].included != [] {
      var item := p.sales.versions[i.versionId].included[0];
      assert item in p.sales.versions[i.versionId].included;
      assert CourseAccess.GrantInput(i.userId, item.courseId, CourseAccess.Membership, p.lineIds(order), i.startsAt, Some(i.endsAt), None)
             in CourseInputs(p, order);
    }
  }

  lemma GracesGrantableIff(p: Platform, order: nat)
    requires order < |p.sales.intents|
    ensures (forall i <- GraceInputs(p, order) :: CourseAccess.ValidInput(i)) <==> GracesGrantable(p, order)
  {
    GraceInputsTold(p, order);
    hide GraceInputs;
    if forall i <- GraceInputs(p, order) :: CourseAccess.ValidInput(i) {
      forall x <- p.sales.snapshots | x.intentId == order && x.removed.graceStartsAt.Some? && x.removed.graceEndsAt.Some?
        ensures UsableId(p.lineIds(order) + ":" + p.courseText(x.removed.courseId)) && x.removed.graceStartsAt.value < x.removed.graceEndsAt.value
      {
        var input := CourseAccess.GrantInput(
          p.sales.intents[order].userId, x.removed.courseId, CourseAccess.MembershipGrace,
          p.lineIds(order) + ":" + p.courseText(x.removed.courseId), x.removed.graceStartsAt.value, x.removed.graceEndsAt, None);
        assert GraceFrom(x, p, order, input);
        assert input in GraceInputs(p, order) && CourseAccess.ValidInput(input);
      }
    }
  }

  lemma TermConditions(subscriptions: seq<Subscription>, order: nat, i: Intent)
    ensures HasTerm(subscriptions, order) <==> TermThere(subscriptions, order)
    ensures Fits(subscriptions, i.userId, i.startsAt, i.endsAt) <==> NothingOverlaps(subscriptions, i)
  {
  }

  /** An order is fulfilled exactly when it exists and has been fulfilled before, or is confirmed, its term is there or
    overlaps no active one, and its courses and graces can be granted.  A refusal changes nothing. */
  lemma FulfilSucceedsIff(p: Platform, order: nat)
    ensures var (q, r) := Fulfil(p, order);
            && (r.Success? <==>
                (order < |p.sales.orders| && order < |p.sales.intents|
                 && (order in p.fulfilled
                     || (p.sales.orders[order].status == Confirmed
                         && (TermThere(p.sales.subscriptions, order) || NothingOverlaps(p.sales.subscriptions, p.sales.intents[order]))
                         && CoursesGrantable(p, order) && GracesGrantable(p, order)))))
            && (r.Failure? || order in p.fulfilled ==> q == p)
            && (r == Failure(NotConfirmed) <==>
                (order < |p.sales.orders| && order < |p.sales.intents| && order !in p.fulfilled && p.sales.orders[order].status != Confirmed))
  {
    if order < |p.sales.orders| && order < |p.sales.intents| {
      TermConditions(p.sales.subscriptions, order, p.sales.intents[order]);
      GrantableIff(p, order);
      GrantEachIff(p.access, CourseInputs(p, order));
      GrantEachIff(GrantEach(p.access, CourseInputs(p, order)).0, GraceInputs(p, order));
      hide GrantEach, CourseInputs, GraceInputs, HasTerm, TermThere, Fits, NothingOverlaps, CoursesGrantable, GracesGrantable, CourseAccess.ValidInput;
    }
  }

  // ----- The rows written

  predicate FromInput(g: CourseAccess.Grant, i: CourseAccess.GrantInput) {
    && g.active && g.userId == i.userId && g.courseId == i.courseId && g.source == i.source && g.sourceId == i.sourceId
    && g.startsAt == i.startsAt && g.endsAt == i.endsAt && g.graceEndsAt == i.graceEndsAt
  }

  ghost predicate GivenBy(g: CourseAccess.Grant, inputs: seq<CourseAccess.GrantInput>) {
    exists i <- inputs :: FromInput(g, i)
  }

  /** The later table has the rows of the earlier one, then rows given by the inputs. */
  ghost predicate GrantsAdded(before: seq<CourseAccess.Grant>, after: seq<CourseAccess.Grant>, inputs: seq<CourseAccess.GrantInput>) {
    before <= after && forall k :: |before| <= k < |after| ==> GivenBy(after[k], inputs)
  }

  lemma GrantsAddedThen(a: seq<CourseAccess.Grant>, b: seq<CourseAccess.Grant>, c: seq<CourseAccess.Grant>,
                        first: seq<CourseAccess.GrantInput>, second: seq<CourseAccess.GrantInput>)
    requires GrantsAdded(a, b, first) && GrantsAdded(b, c, second)
    ensures GrantsAdded(a, c, first + second)
  {
    forall k | |a| <= k < |c| ensures GivenBy(c[k], first + second) {
      if k < |b| {
        assert GivenBy(b[k], first);
      } else {
        assert GivenBy(c[k], second);
      }
    }
  }

  lemma EnsureAdds(s: CourseAccess.Store, i: CourseAccess.GrantInput)
    ensures GrantsAdded(s.grants, CourseAccess.EnsureGrant(s, i).0.grants, [i])
  {
    var after := CourseAccess.EnsureGrant(s, i).0.grants;
    forall k | |s.grants| <= k < |after| ensures GivenBy(after[k], [i]) {
      assert FromInput(after[k], i) && i in [i];
    }
  }

  lemma {:induction false} GrantEachAdds(s: CourseAccess.Store, inputs: seq<CourseAccess.GrantInput>)
    ensures GrantsAdded(s.grants, GrantEach(s, inputs).0.grants, inputs)
    decreases |inputs|
  {
    if inputs != [] {
      var (s1, r) := CourseAccess.EnsureGrant(s, inputs[0]);
      EnsureAdds(s, inputs[0]);
      var rest := if r.Failure? then [] else inputs[1..];
      if r.Success? {
        GrantEachAdds(s1, inputs[1..]);
        GrantsAddedThen(s.grants, s1.grants, GrantEach(s1, inputs[1..]).0.grants, [inputs[0]], inputs[1..]);
        assert [inputs[0]] + inputs[1..] == inputs;
      } else {
        assert inputs[0] in inputs;
      }
    }
  }

  lemma {:induction false} GrantEachKeepsCatalog(s: CourseAccess.Store, inputs: seq<CourseAccess.GrantInput>)
    ensures var t := GrantEach(s, inputs).0; t.users == s.users && t.courses == s.courses && t.lessons == s.lessons
    decreases |inputs|
  {
    if inputs != [] {
      GrantEachKeepsCatalog(CourseAccess.EnsureGrant(s, inputs[0]).0, inputs[1..]);
    }
  }

  /** A membership grant of the order for a course of the version bought, or a grace grant for a course recorded. */
  ghost predicate GrantOfOrder(g: CourseAccess.Grant, p: Platform, order: nat)
    requires order < |p.sales.intents|
  {
    var i := p.sales.intents[order];
    || (i.versionId < |p.sales.versions| && exists item <- p.sales.versions[i.versionId].included ::
          GrantFor(g, i.userId, item.courseId, CourseAccess.Membership, p.lineIds(order), i.startsAt, i.endsAt))
    || exists x <- p.sales.snapshots ::
         && x.intentId == order && x.removed.graceStartsAt.Some? && x.removed.graceEndsAt.Some?
         && GrantFor(g, i.userId, x.removed.courseId, CourseAccess.MembershipGrace, p.lineIds(order) + ":" + p.courseText(x.removed.courseId),
                     x.removed.graceStartsAt.value, x.removed.graceEndsAt.value)
  }

  lemma GivenIsOfOrder(p: Platform, order: nat, g: CourseAccess.Grant)
    requires order < |p.sales.intents| && GivenBy(g, CourseInputs(p, order) + GraceInputs(p, order))
    ensures GrantOfOrder(g, p, order)
  {
    CourseInputsTold(p, order);
    GraceInputsTold(p, order);
    hide CourseInputs, GraceInputs;
    var input :| input in CourseInputs(p, order) + GraceInputs(p, order) && FromInput(g, input);
    if input !in CourseInputs(p, order) {
      var x :| x in p.sales.snapshots && GraceFrom(x, p, order, input);
    }
  }

  /** A first fulfilment is of a confirmed order.  It adds the buyer's term, as the intent recorded it, unless it is there,
    and otherwise only grants of the order; nothing is taken away. */
  lemma FulfilWrites(p: Platform, order: nat)
    requires Fulfil(p, order).1.Success? && order !in p.fulfilled
    ensures order < |p.sales.orders| && order < |p.sales.intents| && p.sales.orders[order].status == Confirmed
    ensures var q, i := Fulfil(p, order).0, p.sales.intents[order];
            && q.fulfilled == p.fulfilled + {order}
            && q.sales == p.sales.(subscriptions := q.sales.subscriptions)
            && (TermThere(p.sales.subscriptions, order) ==> q.sales.subscriptions == p.sales.subscriptions)
            && (!TermThere(p.sales.subscriptions, order) ==>
                q.sales.subscriptions == p.sales.subscriptions
                  + [Subscription(|p.sales.subscriptions|, i.userId, i.versionId, Some(order), true, i.startsAt, i.endsAt)])
            && p.access.grants <= q.access.grants
            && forall k :: |p.access.grants| <= k < |q.access.grants| ==> GrantOfOrder(q.access.grants[k], p, order)
  {
    FulfilSucceedsIff(p, order);
    TermConditions(p.sales.subscriptions, order, p.sales.intents[order]);
    FulfilledGrants(p, order);
    var courses := GrantEach(p.access, CourseInputs(p, order)).0;
    var q := Fulfil(p, order).0;
    GrantEachAdds(p.access, CourseInputs(p, order));
    GrantEachAdds(courses, GraceInputs(p, order));
    GrantsAddedThen(p.access.grants, courses.grants, q.access.grants, CourseInputs(p, order), GraceInputs(p, order));
    hide GrantEach, CourseInputs, GraceInputs, HasTerm, TermThere, Fits, NothingOverlaps, CoursesGrantable, GracesGrantable, GrantOfOrder, GivenBy;
    forall k | |p.access.grants| <= k < |q.access.grants| ensures GrantOfOrder(q.access.grants[k], p, order) {
      GivenIsOfOrder(p, order, q.access.grants[k]);
    }
  }

  /** A first fulfilment gives the buyer an active grace grant for each course recorded with a grace, from its start to its end. */
  lemma FulfilOpensGraces(p: Platform, order: nat, x: MembershipContinuity.Snapshot)
    requires SnapshotsDistinct(p.sales.snapshots)
    requires Fulfil(p, order).1.Success? && order !in p.fulfilled && order < |p.sales.intents|
    requires x in p.sales.snapshots && x.intentId == order && x.removed.graceStartsAt.Some? && x.removed.graceEndsAt.Some?
    requires Unclaimed(p.access.grants, p.sales.intents[order].userId, x.removed.courseId, CourseAccess.MembershipGrace,
                       p.lineIds(order) + ":" + p.courseText(x.removed.courseId))
    ensures exists g <- Fulfil(p, order).0.access.grants ::
              GrantFor(g, p.sales.intents[order].userId, x.removed.courseId, CourseAccess.MembershipGrace,
                       p.lineIds(order) + ":" + p.courseText(x.removed.courseId), x.removed.graceStartsAt.value, x.removed.graceEndsAt.value)
  {
    var input := GraceInput(p.sales.intents[order], p.lineIds(order), p.courseText)(x);
    assert MembershipContinuity.Due(order)(x);
    hide Fulfil, GrantEach;
    forall g <- p.access.grants ensures !CourseAccess.HasKey(g, input.userId, input.courseId, input.source, input.sourceId) {
    }
    FulfilGivesGrace(p, order, x);
    var g :| g in Fulfil(p, order).0.access.grants && g == CourseAccess.NewGrant(g.id, input);
  }

  /** Early access inserts the intended term of an order, named after none, exactly when no active term of the user overlaps;
    a cancellation deactivates one term. */
  lemma EarlyTermAndCancelTold(p: Platform, order: nat, id: nat)
    ensures var q := ReceiptTerm(p, order);
            && q == p.(sales := p.sales.(subscriptions := q.sales.subscriptions))
            && (order < |p.sales.intents| && NothingOverlaps(p.sales.subscriptions, p.sales.intents[order]) ==>
                var i := p.sales.intents[order];
                q.sales.subscriptions == p.sales.subscriptions
                  + [Subscription(|p.sales.subscriptions|, i.userId, i.versionId, None, true, i.startsAt, i.endsAt)])
            && (order >= |p.sales.intents| || !NothingOverlaps(p.sales.subscriptions, p.sales.intents[order]) ==> q == p)
    ensures var q := Cancel(p, id);
            && q == p.(sales := p.sales.(subscriptions := q.sales.subscriptions)) && |q.sales.subscriptions| == |p.sales.subscriptions|
            && forall k :: 0 <= k < |p.sales.subscriptions| ==>
                 q.sales.subscriptions[k] == if k == id then p.sales.subscriptions[k].(active := false) else p.sales.subscriptions[k]
  {
    if order < |p.sales.intents| {
      TermConditions(p.sales.subscriptions, order, p.sales.intents[order]);
    }
    hide Fits, NothingOverlaps;
  }
}
