/** What payment of a membership order brings: the term, the courses it includes, and grace for those it leaves out. */
module MembershipFulfilment {
  import opened Wrappers
  import opened Sorting
  import opened MembershipCheckout
  import Commerce
  import CourseAccess
  import ContinuityLaws
  import MembershipContinuity

  /** The tables of checkouts and of course access, and the orders fulfilled.  `lineIds` gives the id of each
    membership order's one line, `courseText` how a course id is written. */
  datatype Platform = Platform(sales: Store, access: CourseAccess.Store, fulfilled: set<nat>, lineIds: nat -> string, courseText: nat -> string)

  datatype Error = OrderNotFound | NotConfirmed | TermOverlaps | GrantRefused(why: CourseAccess.Error)

  // ----- The term

  predicate Overlaps(x: Subscription, user: nat, startsAt: int, endsAt: int) {
    x.userId == user && x.active && x.startsAt < endsAt && x.expiresAt > startsAt
  }

  /** No active term of the user overlaps this one. */
  predicate Fits(subscriptions: seq<Subscription>, user: nat, startsAt: int, endsAt: int) {
    forall x <- subscriptions :: !Overlaps(x, user, startsAt, endsAt)
  }

  predicate HasTerm(subscriptions: seq<Subscription>, order: nat) {
    exists x <- subscriptions :: x.order == Some(order)
  }

  function TermRow(id: nat, order: Option<nat>, i: Intent): Subscription {
    Subscription(id, i.userId, i.versionId, order, true, i.startsAt, i.endsAt)
  }

  /** The subscriptions with the order's term, unless another term is in the way. */
  function WithTerm(subscriptions: seq<Subscription>, order: nat, i: Intent): Option<seq<Subscription>> {
    if HasTerm(subscriptions, order) then Some(subscriptions)
    else if !Fits(subscriptions, i.userId, i.startsAt, i.endsAt) then None
    else Some(subscriptions + [TermRow(|subscriptions|, Some(order), i)])
  }

  // ----- The grants

  predicate ByCourse(a: MembershipContinuity.Included, b: MembershipContinuity.Included) { a.courseId <= b.courseId }

  function CourseInput(i: Intent, line: string): MembershipContinuity.Included -> CourseAccess.GrantInput {
    (item: MembershipContinuity.Included) =>
      CourseAccess.GrantInput(i.userId, item.courseId, CourseAccess.Membership, line, i.startsAt, Some(i.endsAt), None)
  }

  function GraceSource(line: string, courseText: nat -> string, courseId: nat): string {
    line + ":" + courseText(courseId)
  }

  function GraceInput(i: Intent, line: string, courseText: nat -> string): MembershipContinuity.Snapshot -> CourseAccess.GrantInput {
    (x: MembershipContinuity.Snapshot) =>
      CourseAccess.GrantInput(i.userId, x.removed.courseId, CourseAccess.MembershipGrace, GraceSource(line, courseText, x.removed.courseId),
                              if x.removed.graceStartsAt.Some? then x.removed.graceStartsAt.value else 0, x.removed.graceEndsAt, None)
  }

  function IncludedIn(s: Store, i: Intent): seq<MembershipContinuity.Included> {
    if i.versionId < |s.versions| then s.versions[i.versionId].included else []
  }

  function CourseInputs(p: Platform, order: nat): seq<CourseAccess.GrantInput>
    requires order < |p.sales.intents|
  {
    var i := p.sales.intents[order];
    Map(Sort(IncludedIn(p.sales, i), ByCourse), CourseInput(i, p.lineIds(order)))
  }

  function GraceInputs(p: Platform, order: nat): seq<CourseAccess.GrantInput>
    requires order < |p.sales.intents|
  {
    Map(MembershipContinuity.DueSnapshots(p.sales.snapshots, order), GraceInput(p.sales.intents[order], p.lineIds(order), p.courseText))
  }

  /** Grants in turn; a refused one undoes them all. */
  function GrantEach(s: CourseAccess.Store, inputs: seq<CourseAccess.GrantInput>): (CourseAccess.Store, Result<(), CourseAccess.Error>)
    decreases |inputs|
  {
    if inputs == [] then (s, Success(()))
    else
      var (s1, r) := CourseAccess.EnsureGrant(s, inputs[0]);
      if r.Failure? then (s1, r) else GrantEach(s1, inputs[1..])
  }

  /** `fulfillConfirmedOrder` for a membership order, all or nothing. */
  function Fulfil(p: Platform, order: nat): (Platform, Result<(), Error>) {
    if order >= |p.sales.orders| || order >= |p.sales.intents| then (p, Failure(OrderNotFound))
    else if order in p.fulfilled then (p, Success(()))
    else if p.sales.orders[order].status != Confirmed then (p, Failure(NotConfirmed))
    else
      var subscriptions := WithTerm(p.sales.subscriptions, order, p.sales.intents[order]);
      if subscriptions.None? then (p, Failure(TermOverlaps))
      else
        var (courses, r) := GrantEach(p.access, CourseInputs(p, order));
        if r.Failure? then (p, Failure(GrantRefused(r.error)))
        else
          var (access, r') := GrantEach(courses, GraceInputs(p, order));
          if r'.Failure? then (p, Failure(GrantRefused(r'.error)))
          else (p.(sales := p.sales.(subscriptions := subscriptions.value), access := access, fulfilled := p.fulfilled + {order}), Success(()))
  }

  // ----- The service

  class MembershipFulfilmentService {
    var sales: Store
    const access: CourseAccess.CourseAccessService
    var fulfilled: set<nat>
    const lineIds: nat -> string
    const courseText: nat -> string

    function State(): Platform
      reads this, access
    {
      Platform(sales, access.State(), fulfilled, lineIds, courseText)
    }

    constructor (sales: Store, access: CourseAccess.CourseAccessService, lineIds: nat -> string, courseText: nat -> string)
      ensures State() == Platform(sales, access.State(), {}, lineIds, courseText) && this.access == access
    {
      this.sales, this.access, this.fulfilled, this.lineIds, this.courseText := sales, access, {}, lineIds, courseText;
    }

    method GrantInTurn(inputs: seq<CourseAccess.GrantInput>) returns (r: Result<(), CourseAccess.Error>)
      modifies access`grants, access`enrollments, access`progress
      ensures (access.State(), r) == GrantEach(old(access.State()), inputs)
    {
      hide CourseAccess.EnsureGrant;
      for i := 0 to |inputs|
        invariant access.users == old(access.users) && access.courses == old(access.courses) && access.lessons == old(access.lessons)
        invariant GrantEach(old(access.State()), inputs) == GrantEach(access.State(), inputs[i..])
      {
        assert inputs[i..][1..] == inputs[i + 1..];
        r := access.Ensure(inputs[i]);
        if r.Failure? {
          return;
        }
      }
      r := Success(());
    }

    method FulfilConfirmedOrder(order: nat) returns (r: Result<(), Error>)
      modifies this`sales, this`fulfilled, access`grants, access`enrollments, access`progress
      ensures (State(), r) == Fulfil(old(State()), order)
    {
      hide GrantEach, CourseInputs, GraceInputs, Fits, HasTerm;
      if order >= |sales.orders| || order >= |sales.intents| {
        return Failure(OrderNotFound);
      }
      if order in fulfilled {
        return Success(());
      }
      if sales.orders[order].status != Confirmed {
        return Failure(NotConfirmed);
      }
      var intent := sales.intents[order];
      var before, grants, enrollments, progress := sales, access.grants, access.enrollments, access.progress;
      if !HasTerm(sales.subscriptions, order) {
        if !Fits(sales.subscriptions, intent.userId, intent.startsAt, intent.endsAt) {
          return Failure(TermOverlaps);
        }
        sales := sales.(subscriptions := sales.subscriptions + [TermRow(|sales.subscriptions|, Some(order), intent)]);
      }
      assert CourseInputs(State(), order) == CourseInputs(old(State()), order) && GraceInputs(State(), order) == GraceInputs(old(State()), order) by {
        SameInputs(old(State()), State(), order);
      }
      ghost var included, removed := CourseInputs(State(), order), GraceInputs(State(), order);
      var courses := GrantInTurn(CourseInputs(State(), order));
      if courses.Failure? {
        sales, access.grants, access.enrollments, access.progress := before, grants, enrollments, progress;
        return Failure(GrantRefused(courses.error));
      }
      assert GraceInputs(State(), order) == removed by {
        SameInputs(old(State()), State(), order);
      }
      var graces := GrantInTurn(GraceInputs(State(), order));
      if graces.Failure? {
        sales, access.grants, access.enrollments, access.progress := before, grants, enrollments, progress;
        return Failure(GrantRefused(graces.error));
      }
      fulfilled := fulfilled + {order};
      r := Success(());
    }
  }

  lemma SameInputs(p: Platform, q: Platform, order: nat)
    requires order < |p.sales.intents| && p.sales.intents == q.sales.intents && p.sales.versions == q.sales.versions
    requires p.sales.snapshots == q.sales.snapshots && p.lineIds == q.lineIds && p.courseText == q.courseText
    ensures CourseInputs(p, order) == CourseInputs(q, order) && GraceInputs(p, order) == GraceInputs(q, order)
  {
  }

  // ----- Runs

  /** Early access by receipt inserts the intended term of a pending order under the same check. */
  function ReceiptTerm(p: Platform, order: nat): Platform {
    if order < |p.sales.intents| && Fits(p.sales.subscriptions, p.sales.intents[order].userId, p.sales.intents[order].startsAt, p.sales.intents[order].endsAt) then
      p.(sales := p.sales.(subscriptions := p.sales.subscriptions + [TermRow(|p.sales.subscriptions|, None, p.sales.intents[order])]))
    else p
  }

  /** A refund, or the withdrawal of early access, cancels a term. */
  function Cancel(p: Platform, id: nat): Platform {
    if id < |p.sales.subscriptions| then
      p.(sales := p.sales.(subscriptions := p.sales.subscriptions[id := p.sales.subscriptions[id].(active := false)]))
    else p
  }

  datatype Op =
    | CheckoutOp(user: nat, key: string, input: Input, now: int)
    | SettleOp(order: nat, status: OrderStatus)
    | FulfilOp(order: nat)
    | ReceiptOp(order: nat)
    | CancelOp(subscription: nat)
    | CatalogOp(versions: seq<PlanVersion>, products: map<nat, Commerce.ProductStatus>)
    | ActivityOp(activity: seq<MembershipContinuity.Activity>)
    | AccessOp(op: ContinuityLaws.Op)

  function Step(p: Platform, op: Op): Platform {
    match op
    case CheckoutOp(user, key, input, now) => p.(sales := Checkout(p.sales, user, key, input, now).0)
    case SettleOp(order, status) => p.(sales := Settle(p.sales, order, status))
    case FulfilOp(order) => Fulfil(p, order).0
    case ReceiptOp(order) => ReceiptTerm(p, order)
    case CancelOp(id) => Cancel(p, id)
    case CatalogOp(versions, products) => p.(sales := p.sales.(versions := versions, products := products))
    case ActivityOp(activity) => p.(sales := p.sales.(activity := activity))
    case AccessOp(op) => p.(access := ContinuityLaws.Step(p.access, op))
  }

  function Run(p: Platform, ops: seq<Op>): Platform
    decreases |ops|
  {
    if ops == [] then p else Run(Step(p, ops[0]), ops[1..])
  }
}
