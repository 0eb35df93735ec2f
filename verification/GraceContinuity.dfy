/** From the checkout that leaves a course out, through its payment, to the grace that keeps the course open. */
module GraceContinuity {
  import opened Wrappers
  import opened Sorting
  import opened MembershipCheckout
  import opened MembershipCheckoutLaws
  import opened MembershipFulfilment
  import opened FulfilmentLaws
  import Fulfilment = MembershipFulfilment
  import MembershipTerms
  import MembershipContinuity
  import ContinuityLaws
  import CourseAccess

  // ----- What stays through a run

  /** Line ids, intents, snapshots and grants that are there stay there. */
  ghost predicate Keeps(p: Platform, later: Platform) {
    && later.lineIds == p.lineIds && later.courseText == p.courseText
    && p.sales.intents <= later.sales.intents && p.sales.snapshots <= later.sales.snapshots
  }

  lemma StepKeeps(p: Platform, op: Fulfilment.Op)
    ensures Keeps(p, Fulfilment.Step(p, op))
  {
    hide GrantEach, CourseInputs, GraceInputs, Fits, HasTerm, Checkout, ContinuityLaws.Step;
    if op.CheckoutOp? {
      StepExtends(p.sales, MembershipCheckout.CheckoutOp(op.user, op.key, op.input, op.now));
    }
  }

  lemma {:induction false} RunKeeps(p: Platform, ops: seq<Fulfilment.Op>)
    ensures Keeps(p, Fulfilment.Run(p, ops))
    decreases |ops|
  {
    hide Fulfilment.Step;
    if ops != [] {
      StepKeeps(p, ops[0]);
      RunKeeps(Fulfilment.Step(p, ops[0]), ops[1..]);
    }
  }

  /** The operation revokes nothing of this learner and course. */
  predicate Spares(op: Fulfilment.Op, userId: nat, courseId: nat) {
    op.AccessOp? ==> ContinuityLaws.LeavesAlone(op.op, userId, courseId)
  }

  lemma StepKeepsGrant(p: Platform, op: Fulfilment.Op, g: CourseAccess.Grant)
    requires g in p.access.grants && Spares(op, g.userId, g.courseId)
    ensures g in Fulfilment.Step(p, op).access.grants
  {
    hide GrantEach, CourseInputs, GraceInputs, Fits, HasTerm, Checkout, ContinuityLaws.Step, WithTerm, Settle, ReceiptTerm, Cancel;
    if op.AccessOp? {
      ContinuityLaws.StepKeepsRow(p.access, op.op, g);
    } else if op.FulfilOp? && Fulfil(p, op.order).0 != p {
      GrantEachGrows(p.access, CourseInputs(p, op.order));
      GrantEachGrows(GrantEach(p.access, CourseInputs(p, op.order)).0, GraceInputs(p, op.order));
    } else if op.ReceiptOp? {
      assert ReceiptTerm(p, op.order).access == p.access by {
        ReceiptAside(p, op.order);
      }
    } else if op.CancelOp? {
      CancelAside(p, op.subscription);
    }
  }

  lemma ReceiptAside(p: Platform, order: nat)
    ensures ReceiptTerm(p, order).access == p.access
  {
  }

  lemma CancelAside(p: Platform, id: nat)
    ensures Cancel(p, id).access == p.access
  {
  }

  lemma {:induction false} RunKeepsGrant(p: Platform, ops: seq<Fulfilment.Op>, g: CourseAccess.Grant)
    requires g in p.access.grants && forall op <- ops :: Spares(op, g.userId, g.courseId)
    ensures g in Fulfilment.Run(p, ops).access.grants
    decreases |ops|
  {
    hide Fulfilment.Step, Spares;
    if ops != [] {
      assert ops[0] in ops && forall op <- ops[1..] :: op in ops;
      StepKeepsGrant(p, ops[0], g);
      RunKeepsGrant(Fulfilment.Step(p, ops[0]), ops[1..], g);
    }
  }

  // ----- The grace given

  /** The change of version that a checkout stands for. */
  function ChangeAt(p: Platform, user: nat, input: Input, now: int): ContinuityLaws.VersionChange
    requires CurrentSubscription(p.sales.subscriptions, user, now).Some?
  {
    ChangeOf(p.sales, CurrentSubscription(p.sales.subscriptions, user, now).value, input, now)
  }

  function AfterCheckout(p: Platform, user: nat, key: string, input: Input, now: int): Platform {
    p.(sales := Checkout(p.sales, user, key, input, now).0)
  }

  /** A newly accepted checkout by which a learner with a current term loses a course they have started. */
  ghost predicate GivesUp(p: Platform, user: nat, key: string, input: Input, now: int, item: MembershipContinuity.Included) {
    && PlatformOk(p) && (user, key) !in p.sales.records && Checkout(p.sales, user, key, input, now).1.Success?
    && CurrentSubscription(p.sales.subscriptions, user, now).Some?
    && ContinuityLaws.LosesCourse(ChangeAt(p, user, input, now), item)
  }

  /** The grace grant that fulfilling an order gives for a course. */
  function GraceOf(q: Platform, order: nat, user: nat, c: ContinuityLaws.VersionChange, item: MembershipContinuity.Included): CourseAccess.GrantInput {
    CourseAccess.GrantInput(user, item.courseId, CourseAccess.MembershipGrace, GraceSource(q.lineIds(order), q.courseText, item.courseId),
                            c.termEnd, Some(ContinuityLaws.GraceEnd(c, item)), None)
  }

  lemma CheckedOut(p: Platform, user: nat, key: string, input: Input, now: int, item: MembershipContinuity.Included) returns (x: MembershipContinuity.Snapshot)
    requires GivesUp(p, user, key, input, now, item)
    ensures var t := AfterCheckout(p, user, key, input, now);
            var c := ChangeAt(p, user, input, now);
            && PlatformOk(t) && |p.sales.orders| < |t.sales.intents| && t.sales.intents[|p.sales.orders|].userId == user
            && x in t.sales.snapshots && x.intentId == |p.sales.orders| && x.removed.courseId == item.courseId
            && x.removed.graceStartsAt == Some(c.termEnd) && x.removed.graceEndsAt == Some(ContinuityLaws.GraceEnd(c, item))
  {
    hide Checkout, CurrentSubscription, ContinuityLaws.LosesCourse, TermsDisjoint, TermsBought;
    CheckoutRecordsRemovals(p.sales, user, key, input, now);
    StepKeepsOk(p, Fulfilment.CheckoutOp(user, key, input, now));
    NewIntentOfUser(p.sales, user, key, input, now);
    var t := AfterCheckout(p, user, key, input, now);
    var c := ChangeAt(p, user, input, now);
    x :| x in t.sales.snapshots && x.intentId == |p.sales.intents| && x.userId == user && x.removed.courseId == item.courseId
      && x.removed.graceStartsAt == Some(c.termEnd) && x.removed.graceEndsAt == Some(ContinuityLaws.GraceEnd(c, item));
  }

  lemma NewIntentOfUser(s: Store, user: nat, key: string, input: Input, now: int)
    requires MembershipCheckoutLaws.Valid(s) && (user, key) !in s.records && Checkout(s, user, key, input, now).1.Success?
    ensures var t := Checkout(s, user, key, input, now).0;
            |s.intents| == |s.orders| && |s.orders| < |t.intents| && t.intents[|s.orders|].userId == user
  {
    hide Quote, ValidKey, HasPending, EnsureProduct, MembershipContinuity.PersistSnapshots, RecordsOk, SnapshotsOk, OnePending;
  }

  lemma GraceInputOf(i: Intent, line: string, courseText: nat -> string, x: MembershipContinuity.Snapshot, start: int, end: int)
    requires x.removed.graceStartsAt == Some(start) && x.removed.graceEndsAt == Some(end)
    ensures GraceInput(i, line, courseText)(x)
         == CourseAccess.GrantInput(i.userId, x.removed.courseId, CourseAccess.MembershipGrace,
                                    GraceSource(line, courseText, x.removed.courseId), start, Some(end), None)
  {
  }

  /** Fulfilling the order, whenever that happens, gives the course its grace. */
  lemma FulfilmentGivesGrace(p: Platform, user: nat, key: string, input: Input, now: int, item: MembershipContinuity.Included, between: seq<Fulfilment.Op>)
    requires GivesUp(p, user, key, input, now, item)
    requires var q, order := Fulfilment.Run(AfterCheckout(p, user, key, input, now), between), |p.sales.orders|;
             && order !in q.fulfilled && Fulfil(q, order).1.Success?
             && KeyFree(q.access.grants, GraceOf(q, order, user, ChangeAt(p, user, input, now), item))
    ensures var q, order := Fulfilment.Run(AfterCheckout(p, user, key, input, now), between), |p.sales.orders|;
            exists g <- Fulfil(q, order).0.access.grants :: g == CourseAccess.NewGrant(g.id, GraceOf(q, order, user, ChangeAt(p, user, input, now), item))
  {
    var x := CheckedOut(p, user, key, input, now, item);
    hide GivesUp;
    var t, order := AfterCheckout(p, user, key, input, now), |p.sales.orders|;
    var c := ChangeAt(p, user, input, now);
    var q := Fulfilment.Run(t, between);
    hide AfterCheckout, ChangeAt, Fulfil, KeyFree, MembershipCheckoutLaws.Valid, TermsDisjoint, TermsBought, Fulfilment.Run;
    RunKeeps(t, between);
    RunKeepsOk(t, between);
    assert q.sales.intents[order] == t.sales.intents[order] && x in q.sales.snapshots;
    GraceInputOf(q.sales.intents[order], q.lineIds(order), q.courseText, x, c.termEnd, ContinuityLaws.GraceEnd(c, item));
    assert MembershipContinuity.Due(order)(x);
    OnlyOneSnapshot(q);
    FulfilGivesGrace(q, order, x);
  }

  lemma OnlyOneSnapshot(q: Platform)
    requires PlatformOk(q)
    ensures SnapshotsDistinct(q.sales.snapshots)
  {
    hide TermsDisjoint, TermsBought, RecordsOk, IntentsOk, OnePending;
  }

  /** A course started and left out by a change of version stays open without a gap: when the change is paid for and
    fulfilled, whatever happens before and after that does not revoke it, the learner may learn at every instant from the
    start of the grant held until the end of the grace; from then on neither grant opens the course. */
  lemma StartedCourseStaysOpen(p: Platform, user: nat, key: string, input: Input, now: int, item: MembershipContinuity.Included,
                               between: seq<Fulfilment.Op>, held: CourseAccess.Grant, after: seq<Fulfilment.Op>)
    requires GivesUp(p, user, key, input, now, item)
    requires var q, order := Fulfilment.Run(AfterCheckout(p, user, key, input, now), between), |p.sales.orders|;
             && order !in q.fulfilled && Fulfil(q, order).1.Success?
             && KeyFree(q.access.grants, GraceOf(q, order, user, ChangeAt(p, user, input, now), item))
             && held in q.access.grants && ContinuityLaws.TermGrant(held, user, item.courseId, ChangeAt(p, user, input, now).termEnd)
    requires forall op <- after :: Spares(op, user, item.courseId)
    ensures var q, order := Fulfilment.Run(AfterCheckout(p, user, key, input, now), between), |p.sales.orders|;
            var later := Fulfilment.Run(Fulfil(q, order).0, after).access;
            var end := ContinuityLaws.GraceEnd(ChangeAt(p, user, input, now), item);
            && (forall t :: held.startsAt <= t < end && CourseAccess.LivingUser(later, user) && CourseAccess.OpenCourse(later, item.courseId) ==>
                  CourseAccess.IsAllowed(CourseAccess.Decide(
                    later, Some(CourseAccess.User(user, {CourseAccess.Student})), item.courseId, CourseAccess.FullLearning, false, t)))
            && exists grace <- later.grants ::
                 && grace.userId == user && grace.courseId == item.courseId && grace.source == CourseAccess.MembershipGrace
                 && forall t :: end <= t ==>
                      !CourseAccess.Opens(grace, user, item.courseId, t) && !CourseAccess.Opens(held, user, item.courseId, t)
  {
    assert CurrentSubscription(p.sales.subscriptions, user, now).Some?;
    hide *;
    FulfilmentGivesGrace(p, user, key, input, now, item, between);
    var q, order := Fulfilment.Run(AfterCheckout(p, user, key, input, now), between), |p.sales.orders|;
    var c := ChangeAt(p, user, input, now);
    var done := Fulfil(q, order).0;
    var grace :| grace in done.access.grants && grace == CourseAccess.NewGrant(grace.id, GraceOf(q, order, user, c, item));
    GraceRow(q, order, user, c, item, grace);
    GraceEndsLater(p, user, key, input, now, item);
    HeldAcrossFulfilment(q, order, held);
    HeldIsTheirs(held, user, item.courseId, c.termEnd);
    RunKeepsGrant(done, after, grace);
    RunKeepsGrant(done, after, held);
    ContinuityLaws.OpenThroughout(Fulfilment.Run(done, after).access, user, item.courseId, held, grace, c.termEnd, ContinuityLaws.GraceEnd(c, item));
  }

  lemma GraceRow(q: Platform, order: nat, user: nat, c: ContinuityLaws.VersionChange, item: MembershipContinuity.Included, grace: CourseAccess.Grant)
    requires grace == CourseAccess.NewGrant(grace.id, GraceOf(q, order, user, c, item))
    ensures grace.userId == user && grace.courseId == item.courseId && grace.source == CourseAccess.MembershipGrace && grace.active
    ensures grace.startsAt == c.termEnd && grace.endsAt == Some(ContinuityLaws.GraceEnd(c, item)) && grace.graceEndsAt.None?
  {
  }

  lemma GraceEndsLater(p: Platform, user: nat, key: string, input: Input, now: int, item: MembershipContinuity.Included)
    requires GivesUp(p, user, key, input, now, item)
    ensures ChangeAt(p, user, input, now).termEnd <= ContinuityLaws.GraceEnd(ChangeAt(p, user, input, now), item)
  {
    hide Checkout, CurrentSubscription, PlatformOk, ChangeAt;
  }

  lemma HeldAcrossFulfilment(q: Platform, order: nat, held: CourseAccess.Grant)
    requires held in q.access.grants
    ensures held in Fulfil(q, order).0.access.grants
  {
    assert Spares(FulfilOp(order), held.userId, held.courseId);
    StepKeepsGrant(q, FulfilOp(order), held);
    hide Fulfil;
  }

  lemma HeldIsTheirs(held: CourseAccess.Grant, user: nat, courseId: nat, termEnd: int)
    requires ContinuityLaws.TermGrant(held, user, courseId, termEnd)
    ensures held.userId == user && held.courseId == courseId
  {
  }

  // ----- An instance

  const KEY := "checkout"
  const NEXT_VERSION := Input(1, 0, None, true)
  const LEFT_OUT := MembershipContinuity.Included(7, 3)

  function Sales(): Store {
    var v := PlanVersion(0, 1, true, true, None, None, 10, [ONE_MONTH], [LEFT_OUT]);
    Store([v, v.(number := 2, included := [])], [RUNNING], [MembershipContinuity.Activity(1, 7, true, 0, 0, 0, false)],
          map[], [], [], [], (n: nat) => "snapshot", map[])
  }

  /** A learner has started a course with three days of grace in the term that runs until 100. */
  function Before(held: CourseAccess.Grant): Platform {
    Platform(Sales(), CourseAccess.Store(map[1 := false], map[7 := CourseAccess.Course(2, false, CourseAccess.Published, true, true, None, "VND", "")],
                                         map[], [held], {}, {}), {}, (n: nat) => "line", (n: nat) => "course")
  }

  lemma SalesCurrent()
    ensures CurrentSubscription(Sales().subscriptions, 1, 50) == Some(RUNNING)
  {
    CurrentIsLast(Sales().subscriptions, 1, 50);
    hide CurrentSubscription;
    assert RUNNING in Sales().subscriptions && Started(RUNNING, 1, 50);
  }

  lemma SalesQuote()
    ensures Quote(Sales(), 1, NEXT_VERSION, 50).Success?
    ensures Quote(Sales(), 1, NEXT_VERSION, 50).value.action == MembershipTerms.Renew
  {
    var s := Sales();
    SalesCurrent();
    assert s.versions[..1][..0] == [] && LatestVersion(s.versions[..1], 0) == Some(0) && LatestVersion(s.versions, 0) == Some(1);
    assert FindDuration([ONE_MONTH], 0) == Some(ONE_MONTH);
    hide CurrentSubscription, FindDuration, LatestVersion, MembershipTerms.ResolveMembershipChange, MembershipContinuity.ResolveRemovedCourses;
  }

  lemma SalesCheckout()
    ensures Checkout(Sales(), 1, KEY, NEXT_VERSION, 50).1.Success?
  {
    SalesQuote();
    assert KEY == ['c', 'h', 'e', 'c', 'k', 'o', 'u', 't'] && ValidKey(KEY);
    hide Quote, ValidKey;
  }

  lemma SalesLoseCourse()
    ensures CurrentSubscription(Sales().subscriptions, 1, 50) == Some(RUNNING)
    ensures ContinuityLaws.LosesCourse(ChangeOf(Sales(), RUNNING, NEXT_VERSION, 50), LEFT_OUT)
  {
    SalesCurrent();
    var c := ChangeOf(Sales(), RUNNING, NEXT_VERSION, 50);
    assert ContinuityLaws.LeavesOut(c.target, LEFT_OUT.courseId) && c.activity[0] in c.activity && LEFT_OUT in c.current.included;
  }

  lemma BeforeGivesUp(held: CourseAccess.Grant)
    ensures GivesUp(Before(held), 1, KEY, NEXT_VERSION, 50, LEFT_OUT)
  {
    SalesCheckout();
    SalesLoseCourse();
    hide Checkout, CurrentSubscription, ContinuityLaws.LosesCourse, ChangeOf;
  }

  lemma {:induction false} ValidInputsGranted(s: CourseAccess.Store, inputs: seq<CourseAccess.GrantInput>)
    requires forall i <- inputs :: CourseAccess.ValidInput(i)
    ensures GrantEach(s, inputs).1.Success?
    decreases |inputs|
  {
    if inputs != [] {
      assert inputs[0] in inputs && forall i <- inputs[1..] :: i in inputs;
      ValidInputsGranted(CourseAccess.EnsureGrant(s, inputs[0]).0, inputs[1..]);
    }
  }

  /** The state after the checkout, its order confirmed. */
  function Paid(held: CourseAccess.Grant): Platform {
    Fulfilment.Run(AfterCheckout(Before(held), 1, KEY, NEXT_VERSION, 50), [Fulfilment.SettleOp(0, Confirmed)])
  }

  lemma SalesRows()
    ensures var t, offer := Checkout(Sales(), 1, KEY, NEXT_VERSION, 50).0, Quote(Sales(), 1, NEXT_VERSION, 50);
            && offer.Success? && t.versions == Sales().versions && t.subscriptions == [RUNNING]
            && t.orders == [Order(1, offer.value.subtotal, offer.value.discount, offer.value.payable, PendingPayment)]
            && t.intents == [IntentOf(0, 1, NEXT_VERSION, offer.value)]
            && t.snapshots == MembershipContinuity.PersistSnapshots([], Sales().ids, 0, 1, offer.value.removed)
  {
    SalesCheckout();
    SalesQuote();
    hide Quote, ValidKey, MembershipContinuity.PersistSnapshots;
  }

  lemma PaidInOneStep(held: CourseAccess.Grant)
    ensures Paid(held) == Fulfilment.Step(AfterCheckout(Before(held), 1, KEY, NEXT_VERSION, 50), Fulfilment.SettleOp(0, Confirmed))
  {
    hide AfterCheckout, Before, Fulfilment.Step;
    assert [Fulfilment.SettleOp(0, Confirmed)][1..] == [];
  }

  lemma PaidRows(held: CourseAccess.Grant)
    ensures var q, offer := Paid(held), Quote(Sales(), 1, NEXT_VERSION, 50);
            && offer.Success? && q.sales.versions == Sales().versions && q.sales.subscriptions == [RUNNING] && q.fulfilled == {}
            && q.access == Before(held).access && q.lineIds == Before(held).lineIds && q.courseText == Before(held).courseText
            && q.sales.orders == [Order(1, offer.value.subtotal, offer.value.discount, offer.value.payable, Confirmed)]
            && q.sales.intents == [IntentOf(0, 1, NEXT_VERSION, offer.value)]
            && q.sales.snapshots == MembershipContinuity.PersistSnapshots([], Sales().ids, 0, 1, offer.value.removed)
  {
    SalesRows();
    PaidInOneStep(held);
    hide Checkout, Quote, Paid, Sales, MembershipContinuity.PersistSnapshots, Fulfilment.Run;
  }

  /** Graces of recorded removals make valid grants, for line and course ids that are not too long. */
  lemma GracesValid(q: Platform, order: nat, c: ContinuityLaws.VersionChange)
    requires order < |q.sales.intents| && c.current.id != c.target.id
    requires forall x <- q.sales.snapshots :: x.removed in ContinuityLaws.RemovedBy(c)
    requires forall courseId :: |q.lineIds(order)| + |q.courseText(courseId)| < 128
    ensures forall i <- GraceInputs(q, order) :: CourseAccess.ValidInput(i)
  {
    var f := GraceInput(q.sales.intents[order], q.lineIds(order), q.courseText);
    var due := MembershipContinuity.DueSnapshots(q.sales.snapshots, order);
    ContinuityLaws.DueMembers(q.sales.snapshots, order);
    ContinuityLaws.MapMembers(due, f);
    hide MembershipContinuity.DueSnapshots, Map, ContinuityLaws.RemovedBy;
    forall i <- GraceInputs(q, order) ensures CourseAccess.ValidInput(i) {
      var x :| x in due && f(x) == i;
      assert x in q.sales.snapshots && MembershipContinuity.Due(order)(x);
      ContinuityLaws.RemovedProper(c, x.removed);
    }
  }

  lemma PaidGraces(held: CourseAccess.Grant)
    ensures |Paid(held).sales.intents| > 0 && forall i <- GraceInputs(Paid(held), 0) :: CourseAccess.ValidInput(i)
  {
    PaidRows(held);
    SalesCurrent();
    SalesQuote();
    QuotedRemovals(Sales(), 1, NEXT_VERSION, 50);
    var q := Paid(held);
    var c := ChangeOf(Sales(), RUNNING, NEXT_VERSION, 50);
    PersistAppends([], Sales().ids, 0, 1, ContinuityLaws.RemovedBy(c));
    assert q.sales.snapshots[0..] == q.sales.snapshots;
    hide Paid, Quote, CurrentSubscription, MembershipContinuity.PersistSnapshots, ContinuityLaws.RemovedBy, GraceInputs;
    GracesValid(q, 0, c);
  }

  lemma PaidFulfilled(held: CourseAccess.Grant)
    ensures 0 !in Paid(held).fulfilled && Fulfil(Paid(held), 0).1.Success?
  {
    PaidRows(held);
    PaidGraces(held);
    SalesQuote();
    SalesCurrent();
    TermStart(Sales(), 1, NEXT_VERSION, 50);
    var q := Paid(held);
    hide Paid, Quote, CurrentSubscription, GraceInputs, MembershipContinuity.PersistSnapshots;
    assert IncludedIn(q.sales, q.sales.intents[0]) == [] && CourseInputs(q, 0) == [];
    assert GrantEach(q.access, []) == (q.access, Success(()));
    ValidInputsGranted(q.access, GraceInputs(q, 0));
    assert q.sales.intents[0].startsAt == 100;
    assert Fits(q.sales.subscriptions, 1, 100, q.sales.intents[0].endsAt) && !HasTerm(q.sales.subscriptions, 0);
  }

  /** There are such checkouts: a learner renews to a version without the course, pays, and the order is fulfilled. */
  lemma SomeStartedCourse() returns (p: Platform, item: MembershipContinuity.Included, between: seq<Fulfilment.Op>, held: CourseAccess.Grant)
    ensures GivesUp(p, 1, KEY, NEXT_VERSION, 50, item)
    ensures var q, order := Fulfilment.Run(AfterCheckout(p, 1, KEY, NEXT_VERSION, 50), between), |p.sales.orders|;
            && order !in q.fulfilled && Fulfil(q, order).1.Success?
            && KeyFree(q.access.grants, GraceOf(q, order, 1, ChangeAt(p, 1, NEXT_VERSION, 50), item))
            && held in q.access.grants && ContinuityLaws.TermGrant(held, 1, item.courseId, ChangeAt(p, 1, NEXT_VERSION, 50).termEnd)
            && held.startsAt < 100 && CourseAccess.LivingUser(q.access, 1) && CourseAccess.OpenCourse(q.access, item.courseId)
  {
    held := CourseAccess.Grant(0, 1, 7, CourseAccess.Membership, "earlier", true, 0, Some(100), None);
    p, item, between := Before(held), LEFT_OUT, [Fulfilment.SettleOp(0, Confirmed)];
    BeforeGivesUp(held);
    PaidFulfilled(held);
    PaidRows(held);
    SalesCurrent();
    var q := Paid(held);
    assert q == Fulfilment.Run(AfterCheckout(p, 1, KEY, NEXT_VERSION, 50), between);
    hide Paid, Fulfilment.Run, Fulfil, GivesUp, CurrentSubscription, Quote, AfterCheckout;
    assert held in q.access.grants;
  }
}
