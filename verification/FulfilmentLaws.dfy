/** What every run of checkouts, payments and fulfilments keeps of membership terms, and when a paid term is refused. */
module FulfilmentLaws {
  import opened Wrappers
  import opened Sorting
  import opened MembershipCheckout
  import opened MembershipCheckoutLaws
  import opened MembershipFulfilment
  import Fulfilment = MembershipFulfilment
  import MembershipTerms
  import MembershipContinuity
  import ContinuityLaws
  import CourseAccess

  // ----- The invariant

  predicate Apart(x: Subscription, y: Subscription) {
    x.active && y.active && x.userId == y.userId ==> x.expiresAt <= y.startsAt || y.expiresAt <= x.startsAt
  }

  /** Terms are proper intervals, and the active ones of a user do not overlap. */
  ghost predicate TermsDisjoint(subscriptions: seq<Subscription>) {
    && (forall x <- subscriptions :: x.startsAt < x.expiresAt)
    && forall i, j :: 0 <= i < j < |subscriptions| ==> Apart(subscriptions[i], subscriptions[j])
  }

  predicate IsTermOf(x: Subscription, i: Intent) {
    x.userId == i.userId && x.versionId == i.versionId && x.startsAt == i.startsAt && x.expiresAt == i.endsAt
  }

  /** A term bought with an order is the one its intent recorded, and no order has two. */
  ghost predicate TermsBought(subscriptions: seq<Subscription>, intents: seq<Intent>) {
    && (forall x <- subscriptions :: x.order.Some? ==> x.order.value < |intents| && IsTermOf(x, intents[x.order.value]))
    && forall i, j :: 0 <= i < j < |subscriptions| && subscriptions[i].order.Some? ==> subscriptions[i].order != subscriptions[j].order
  }

  ghost predicate PlatformOk(p: Platform) {
    && MembershipCheckoutLaws.Valid(p.sales)
    && TermsDisjoint(p.sales.subscriptions) && TermsBought(p.sales.subscriptions, p.sales.intents)
    && (forall k <- p.fulfilled :: k < |p.sales.orders|)
  }

  lemma AddedTermDisjoint(subscriptions: seq<Subscription>, row: Subscription)
    requires TermsDisjoint(subscriptions) && row.startsAt < row.expiresAt && Fits(subscriptions, row.userId, row.startsAt, row.expiresAt)
    ensures TermsDisjoint(subscriptions + [row])
  {
    var more := subscriptions + [row];
    forall i, j | 0 <= i < j < |more| ensures Apart(more[i], more[j]) {
      assert subscriptions != [] ==> more[i] in subscriptions;
      assert i < |subscriptions| ==> !Overlaps(subscriptions[i], row.userId, row.startsAt, row.expiresAt);
    }
  }

  lemma AddedTermBought(subscriptions: seq<Subscription>, intents: seq<Intent>, id: nat, order: Option<nat>, k: nat)
    requires TermsBought(subscriptions, intents) && k < |intents| && (order == None || (order == Some(k) && !HasTerm(subscriptions, k)))
    ensures TermsBought(subscriptions + [TermRow(id, order, intents[k])], intents)
  {
    var row := TermRow(id, order, intents[k]);
    var more := subscriptions + [row];
    forall i, j | 0 <= i < j < |more| && more[i].order.Some? ensures more[i].order != more[j].order {
      assert subscriptions != [] ==> more[i] in subscriptions;
    }
  }

  lemma MoreIntentsBought(subscriptions: seq<Subscription>, intents: seq<Intent>, later: seq<Intent>)
    requires TermsBought(subscriptions, intents) && intents <= later
    ensures TermsBought(subscriptions, later)
  {
    forall x <- subscriptions | x.order.Some? ensures later[x.order.value] == intents[x.order.value] {
    }
  }

  lemma SubscriptionsAside(s: Store, subscriptions: seq<Subscription>)
    requires MembershipCheckoutLaws.Valid(s)
    ensures MembershipCheckoutLaws.Valid(s.(subscriptions := subscriptions))
  {
  }

  lemma ProperIntent(s: Store, k: nat)
    requires MembershipCheckoutLaws.Valid(s) && k < |s.intents|
    ensures s.intents[k].startsAt < s.intents[k].endsAt && s.intents[k].order == k && k < |s.orders|
  {
    hide RecordsOk, SnapshotsOk, OnePending;
  }

  lemma FulfilKeepsOk(p: Platform, order: nat)
    requires PlatformOk(p)
    ensures PlatformOk(Fulfil(p, order).0)
  {
    hide GrantEach, CourseInputs, GraceInputs, Fits, HasTerm, TermsDisjoint, TermsBought, MembershipCheckoutLaws.Valid;
    var q := Fulfil(p, order).0;
    if q != p {
      ProperIntent(p.sales, order);
      SubscriptionsAside(p.sales, q.sales.subscriptions);
      if !HasTerm(p.sales.subscriptions, order) {
        var row := TermRow(|p.sales.subscriptions|, Some(order), p.sales.intents[order]);
        AddedTermDisjoint(p.sales.subscriptions, row);
        AddedTermBought(p.sales.subscriptions, p.sales.intents, |p.sales.subscriptions|, Some(order), order);
      }
    }
  }

  lemma ReceiptKeepsOk(p: Platform, order: nat)
    requires PlatformOk(p)
    ensures PlatformOk(ReceiptTerm(p, order))
  {
    hide Fits, TermsDisjoint, TermsBought, MembershipCheckoutLaws.Valid;
    var q := ReceiptTerm(p, order);
    if q != p {
      ProperIntent(p.sales, order);
      SubscriptionsAside(p.sales, q.sales.subscriptions);
      AddedTermDisjoint(p.sales.subscriptions, TermRow(|p.sales.subscriptions|, None, p.sales.intents[order]));
      AddedTermBought(p.sales.subscriptions, p.sales.intents, |p.sales.subscriptions|, None, order);
    }
  }

  lemma CancelKeepsOk(p: Platform, id: nat)
    requires PlatformOk(p)
    ensures PlatformOk(Cancel(p, id))
  {
    hide MembershipCheckoutLaws.Valid;
    if id < |p.sales.subscriptions| {
      var after := p.sales.subscriptions[id := p.sales.subscriptions[id].(active := false)];
      SubscriptionsAside(p.sales, after);
      assert forall x <- after :: x in p.sales.subscriptions || x == p.sales.subscriptions[id].(active := false);
      assert p.sales.subscriptions[id] in p.sales.subscriptions;
    }
  }

  lemma SalesStepKeepsOk(p: Platform, op: MembershipCheckout.Op)
    requires PlatformOk(p) && !op.LearnerOp?
    ensures PlatformOk(p.(sales := MembershipCheckout.Step(p.sales, op)))
  {
    MembershipCheckoutLaws.StepKeepsValid(p.sales, op);
    StepExtends(p.sales, op);
    var t := MembershipCheckout.Step(p.sales, op);
    assert t.subscriptions == p.sales.subscriptions by {
      hide Quote, HasPending, MembershipContinuity.PersistSnapshots, MembershipCheckoutLaws.Valid, TermsDisjoint, TermsBought;
    }
    MoreIntentsBought(p.sales.subscriptions, p.sales.intents, t.intents);
    hide MembershipCheckout.Step, MembershipCheckoutLaws.Valid, TermsDisjoint, TermsBought;
  }

  lemma StepKeepsOk(p: Platform, op: Fulfilment.Op)
    requires PlatformOk(p)
    ensures PlatformOk(Fulfilment.Step(p, op))
  {
    hide Fulfil, ReceiptTerm, Cancel, Checkout, Settle, TermsDisjoint, TermsBought;
    match op
    case CheckoutOp(user, key, input, now) => SalesStepKeepsOk(p, MembershipCheckout.CheckoutOp(user, key, input, now));
    case SettleOp(order, status) => SalesStepKeepsOk(p, MembershipCheckout.SettleOp(order, status));
    case FulfilOp(order) => FulfilKeepsOk(p, order);
    case ReceiptOp(order) => ReceiptKeepsOk(p, order);
    case CancelOp(id) => CancelKeepsOk(p, id);
    case CatalogOp(versions, products) => SalesStepKeepsOk(p, MembershipCheckout.CatalogOp(versions, products));
    case ActivityOp(activity) =>
    case AccessOp(op) =>
  }

  /** After any run of checkouts, payments, fulfilments, early access and cancellations, no two active terms of a user
    overlap, and each order has at most one term, the one that its checkout offered. */
  lemma {:induction false} RunKeepsOk(p: Platform, ops: seq<Fulfilment.Op>)
    requires PlatformOk(p)
    ensures PlatformOk(Fulfilment.Run(p, ops))
    decreases |ops|
  {
    hide Fulfilment.Step, PlatformOk;
    if ops != [] {
      StepKeepsOk(p, ops[0]);
      RunKeepsOk(Fulfilment.Step(p, ops[0]), ops[1..]);
    }
  }

  // ----- Which offers can be fulfilled

  /** The user's active terms that are yet to start. */
  predicate Scheduled(x: Subscription, user: nat, now: int) {
    x.userId == user && x.active && now < x.startsAt
  }

  /** What is offered fits among the user's terms exactly when it is no upgrade and ends before every scheduled term
    starts.  An upgrade starts at once, over the very term it is to replace; a renewal or downgrade starts when the
    current term ends, which is where a term already scheduled may start too. */
  lemma OfferFitsIff(s: Store, user: nat, input: Input, now: int)
    requires TermsDisjoint(s.subscriptions) && Quote(s, user, input, now).Success?
    ensures var offer := Quote(s, user, input, now).value;
            Fits(s.subscriptions, user, offer.term.startsAt, offer.term.endsAt) <==>
            && offer.action != MembershipTerms.Upgrade
            && forall x <- s.subscriptions :: Scheduled(x, user, now) ==> offer.term.endsAt <= x.startsAt
  {
    TermsOffered(s, user, input, now);
    CurrentIsLast(s.subscriptions, user, now);
    var offer := Quote(s, user, input, now).value;
    var current := CurrentSubscription(s.subscriptions, user, now);
    TermStart(s, user, input, now);
    hide Quote, CurrentSubscription, TermsDisjoint, PlanOf;
    forall x <- s.subscriptions | Scheduled(x, user, now) ensures offer.action != MembershipTerms.Upgrade ==> offer.term.startsAt < x.expiresAt {
      ScheduledAfterCurrent(s.subscriptions, user, now, x);
    }
    if offer.action == MembershipTerms.Upgrade {
      assert Overlaps(current.value, user, offer.term.startsAt, offer.term.endsAt);
    } else {
      forall x <- s.subscriptions
        ensures Overlaps(x, user, offer.term.startsAt, offer.term.endsAt) <==> Scheduled(x, user, now) && x.startsAt < offer.term.endsAt
      {
        assert Started(x, user, now) ==> x.expiresAt <= offer.term.startsAt;
      }
    }
  }

  /** A term that is no upgrade starts now, or when the current term ends. */
  lemma TermStart(s: Store, user: nat, input: Input, now: int)
    requires Quote(s, user, input, now).Success?
    ensures var offer := Quote(s, user, input, now).value;
            var current := CurrentSubscription(s.subscriptions, user, now);
            offer.action != MembershipTerms.Upgrade ==>
              offer.term.startsAt == if InEffect(current, now) then current.value.expiresAt else now
  {
    hide Quote, CurrentSubscription, PlanOf, MembershipTerms.AddMonths;
    var months := QuoteUnfolds(s, user, input, now);
  }

  lemma ScheduledAfterCurrent(subscriptions: seq<Subscription>, user: nat, now: int, x: Subscription)
    requires TermsDisjoint(subscriptions) && x in subscriptions && Scheduled(x, user, now)
    ensures var current := CurrentSubscription(subscriptions, user, now);
            now < x.expiresAt && (InEffect(current, now) ==> current.value.expiresAt < x.expiresAt)
  {
    CurrentIsLast(subscriptions, user, now);
    hide CurrentSubscription;
    var current := CurrentSubscription(subscriptions, user, now);
    if InEffect(current, now) {
      var i :| 0 <= i < |subscriptions| && subscriptions[i] == x;
      var j :| 0 <= j < |subscriptions| && subscriptions[j] == current.value;
      assert Apart(subscriptions[if i < j then i else j], subscriptions[if i < j then j else i]);
    }
  }

  /** So a second renewal, paid while the first one's term is still to come, starts with that term and is refused. */
  lemma RenewalBehindSchedule(s: Store, user: nat, input: Input, now: int, scheduled: Subscription)
    requires TermsDisjoint(s.subscriptions) && Quote(s, user, input, now).Success?
    requires Quote(s, user, input, now).value.action == MembershipTerms.Renew
    requires InEffect(CurrentSubscription(s.subscriptions, user, now), now)
    requires scheduled in s.subscriptions && Scheduled(scheduled, user, now)
    requires scheduled.startsAt == CurrentSubscription(s.subscriptions, user, now).value.expiresAt
    ensures var offer := Quote(s, user, input, now).value;
            offer.term.startsAt == scheduled.startsAt && !Fits(s.subscriptions, user, offer.term.startsAt, offer.term.endsAt)
  {
    TermsOffered(s, user, input, now);
    TermStart(s, user, input, now);
    OfferFitsIff(s, user, input, now);
    hide Quote, CurrentSubscription, TermsDisjoint, Fits, PlanOf;
  }

  const RUNNING := Subscription(0, 1, 0, None, true, 0, 100)
  const RENEWED := Subscription(1, 1, 0, None, true, 100, 200)
  const ONE_MONTH := Duration(0, 1, Some(10), None)
  const MONTHLY_PLAN := PlanVersion(0, 1, true, true, None, None, 10, [ONE_MONTH], [])

  lemma RunningIsCurrent(subscriptions: seq<Subscription>)
    requires subscriptions == [RUNNING, RENEWED]
    ensures CurrentSubscription(subscriptions, 1, 50) == Some(RUNNING)
  {
    CurrentIsLast(subscriptions, 1, 50);
    hide CurrentSubscription;
    assert RUNNING in subscriptions && Started(RUNNING, 1, 50);
  }

  function TwoTerms(): Store {
    Store([MONTHLY_PLAN], [RUNNING, RENEWED], [], map[], [], [], [], (n: nat) => "", map[])
  }

  lemma TwoTermsDisjoint()
    ensures TermsDisjoint(TwoTerms().subscriptions)
  {
  }

  lemma OnlyVersionAndDuration()
    ensures LatestVersion(TwoTerms().versions, 0) == Some(0) && FindDuration([ONE_MONTH], 0) == Some(ONE_MONTH)
  {
    var versions := TwoTerms().versions;
    assert versions[..0] == [] && versions[0].planId == 0 && versions[0].published;
  }

  lemma RenewalQuoted()
    ensures var q := Quote(TwoTerms(), 1, Input(0, 0, None, true), 50); q.Success? && q.value.action == MembershipTerms.Renew
  {
    hide CurrentSubscription, FindDuration, LatestVersion, MembershipTerms.ResolveMembershipChange, MembershipContinuity.ResolveRemovedCourses;
    RunningIsCurrent(TwoTerms().subscriptions);
    OnlyVersionAndDuration();
  }

  /** A learner with a running term and its renewal already bought, renewing once more. */
  lemma SecondRenewalRefused()
    ensures var s, input := TwoTerms(), Input(0, 0, None, true);
            && TermsDisjoint(s.subscriptions) && Quote(s, 1, input, 50).Success?
            && var offer := Quote(s, 1, input, 50).value;
               offer.action == MembershipTerms.Renew && !Fits(s.subscriptions, 1, offer.term.startsAt, offer.term.endsAt)
  {
    var s := TwoTerms();
    TwoTermsDisjoint();
    RenewalQuoted();
    RunningIsCurrent(s.subscriptions);
    hide Quote, CurrentSubscription, TermsDisjoint, Fits;
    RenewalBehindSchedule(s, 1, Input(0, 0, None, true), 50, RENEWED);
  }

  // ----- Upgrades

  /** The order's term and the term at `j` overlap as they were recorded; while the latter stands, the order waits. */
  ghost predicate Waits(p: Platform, order: nat, j: nat) {
    && order < |p.sales.intents| && order < |p.sales.orders| && j < |p.sales.subscriptions|
    && var x, i := p.sales.subscriptions[j], p.sales.intents[order];
       && Overlaps(x.(active := true), i.userId, i.startsAt, i.endsAt)
       && (x.active ==> !HasTerm(p.sales.subscriptions, order) && order !in p.fulfilled)
  }

  lemma FulfilKeepsWaiting(p: Platform, k: nat, order: nat, j: nat)
    requires Waits(p, order, j)
    ensures Waits(Fulfil(p, k).0, order, j)
  {
    hide GrantEach, CourseInputs, GraceInputs;
    assert p.sales.subscriptions[j] in p.sales.subscriptions;
  }

  lemma ReceiptKeepsWaiting(p: Platform, k: nat, order: nat, j: nat)
    requires Waits(p, order, j)
    ensures Waits(ReceiptTerm(p, k), order, j)
  {
    hide Fits;
    assert p.sales.subscriptions[j] in p.sales.subscriptions;
  }

  lemma CancelKeepsWaiting(p: Platform, id: nat, order: nat, j: nat)
    requires Waits(p, order, j)
    ensures Waits(Cancel(p, id), order, j)
  {
    if id < |p.sales.subscriptions| {
      var after := Cancel(p, id).sales.subscriptions;
      assert p.sales.subscriptions[id] in p.sales.subscriptions;
      assert forall y <- after :: y in p.sales.subscriptions || y == p.sales.subscriptions[id].(active := false);
    }
  }

  lemma CheckoutKeepsWaiting(p: Platform, user: nat, key: string, input: Input, now: int, order: nat, j: nat)
    requires Waits(p, order, j)
    ensures Waits(p.(sales := Checkout(p.sales, user, key, input, now).0), order, j)
  {
    StepExtends(p.sales, MembershipCheckout.CheckoutOp(user, key, input, now));
    hide Quote, ValidKey, HasPending, MembershipContinuity.PersistSnapshots, HasTerm, Overlaps;
  }

  lemma StepKeepsWaiting(p: Platform, op: Fulfilment.Op, order: nat, j: nat)
    requires Waits(p, order, j)
    ensures Waits(Fulfilment.Step(p, op), order, j)
  {
    hide Fulfil, ReceiptTerm, Cancel, Checkout, ContinuityLaws.Step, HasTerm, Overlaps;
    match op
    case CheckoutOp(user, key, input, now) => CheckoutKeepsWaiting(p, user, key, input, now, order, j);
    case FulfilOp(k) => FulfilKeepsWaiting(p, k, order, j);
    case ReceiptOp(k) => ReceiptKeepsWaiting(p, k, order, j);
    case CancelOp(id) => CancelKeepsWaiting(p, id, order, j);
    case _ =>
  }

  lemma {:induction false} RunKeepsWaiting(p: Platform, ops: seq<Fulfilment.Op>, order: nat, j: nat)
    requires Waits(p, order, j)
    ensures Waits(Fulfilment.Run(p, ops), order, j)
    decreases |ops|
  {
    hide Fulfilment.Step, Waits;
    if ops != [] {
      StepKeepsWaiting(p, ops[0], order, j);
      RunKeepsWaiting(Fulfilment.Step(p, ops[0]), ops[1..], order, j);
    }
  }

  lemma WaitingIsRefused(p: Platform, order: nat, j: nat)
    requires Waits(p, order, j) && p.sales.subscriptions[j].active
    ensures Fulfil(p, order).1.Failure? && order !in p.fulfilled
  {
    hide GrantEach, CourseInputs, GraceInputs;
    assert p.sales.subscriptions[j] in p.sales.subscriptions;
  }

  lemma UpgradeWaits(p: Platform, user: nat, key: string, input: Input, now: int) returns (j: nat)
    requires PlatformOk(p) && (user, key) !in p.sales.records && Checkout(p.sales, user, key, input, now).1.Success?
    requires Quote(p.sales, user, input, now).Success? && Quote(p.sales, user, input, now).value.action == MembershipTerms.Upgrade
    ensures j < |p.sales.subscriptions| && Some(p.sales.subscriptions[j]) == CurrentSubscription(p.sales.subscriptions, user, now)
    ensures Waits(p.(sales := Checkout(p.sales, user, key, input, now).0), |p.sales.orders|, j)
  {
    TermsOffered(p.sales, user, input, now);
    CurrentIsLast(p.sales.subscriptions, user, now);
    hide Quote, CurrentSubscription, ValidKey, HasPending, EnsureProduct, MembershipContinuity.PersistSnapshots, PlanOf, TermsDisjoint,
         RecordsOk, SnapshotsOk, OnePending;
    var current := CurrentSubscription(p.sales.subscriptions, user, now);
    j :| 0 <= j < |p.sales.subscriptions| && p.sales.subscriptions[j] == current.value;
    assert |p.sales.intents| == |p.sales.orders|;
    assert !HasTerm(p.sales.subscriptions, |p.sales.orders|);
  }

  /** An upgrade is paid for over the term it is to replace, and nothing in fulfilment ends that term: the upgrade's order
    stays refused until the term has been cancelled. */
  lemma UpgradeNeedsCancellation(p: Platform, user: nat, key: string, input: Input, now: int, ops: seq<Fulfilment.Op>)
    requires PlatformOk(p) && (user, key) !in p.sales.records && Checkout(p.sales, user, key, input, now).1.Success?
    requires Quote(p.sales, user, input, now).Success? && Quote(p.sales, user, input, now).value.action == MembershipTerms.Upgrade
    ensures var later := Fulfilment.Run(p.(sales := Checkout(p.sales, user, key, input, now).0), ops);
            var order := |p.sales.orders|;
            exists j :: 0 <= j < |p.sales.subscriptions| && j < |later.sales.subscriptions|
              && Some(p.sales.subscriptions[j]) == CurrentSubscription(p.sales.subscriptions, user, now)
              && (later.sales.subscriptions[j].active ==> order !in later.fulfilled && Fulfil(later, order).1.Failure?)
  {
    var j := UpgradeWaits(p, user, key, input, now);
    var next := p.(sales := Checkout(p.sales, user, key, input, now).0);
    hide Quote, Checkout, CurrentSubscription, Fulfil;
    RunKeepsWaiting(next, ops, |p.sales.orders|, j);
    var later := Fulfilment.Run(next, ops);
    if later.sales.subscriptions[j].active {
      WaitingIsRefused(later, |p.sales.orders|, j);
    }
  }

  // ----- Renewals

  /** A renewal paid and fulfilled at once: the row it adds, if it fits. */
  function Renewed(subscriptions: seq<Subscription>, user: nat, versionId: nat, p: MembershipTerms.Payment): seq<Subscription> {
    var term := MembershipTerms.ResolveMembershipChange(MembershipTerms.Renew, p.months, p.at, ExpiryOf(CurrentSubscription(subscriptions, user, p.at)));
    if Fits(subscriptions, user, term.startsAt, term.endsAt) then subscriptions + [RenewalRow(|subscriptions|, user, versionId, term)]
    else subscriptions
  }

  function RenewalRow(id: nat, user: nat, versionId: nat, term: MembershipTerms.Term): Subscription {
    Subscription(id, user, versionId, Some(id), true, term.startsAt, term.endsAt)
  }

  function RenewedAll(subscriptions: seq<Subscription>, user: nat, versionId: nat, payments: seq<MembershipTerms.Payment>): seq<Subscription>
    decreases |payments|
  {
    if payments == [] then subscriptions
    else RenewedAll(Renewed(subscriptions, user, versionId, payments[0]), user, versionId, payments[1..])
  }

  /** The user's active term that starts and ends last. */
  ghost predicate LastTerm(subscriptions: seq<Subscription>, user: nat, last: Subscription) {
    && last in subscriptions && last.userId == user && last.active
    && forall x <- subscriptions :: x.userId == user && x.active ==> x.startsAt <= last.startsAt && x.expiresAt <= last.expiresAt
  }

  /** The term that would continue the last one. */
  function NextTerm(last: Subscription, p: MembershipTerms.Payment): MembershipTerms.Term {
    MembershipTerms.ResolveMembershipChange(MembershipTerms.Renew, p.months, p.at, Some(last.expiresAt))
  }

  /** A renewal continues the user's last term exactly when it is paid after that term has started. */
  lemma ContinuesLastIff(subscriptions: seq<Subscription>, user: nat, versionId: nat, p: MembershipTerms.Payment, last: Subscription)
    requires TermsDisjoint(subscriptions) && LastTerm(subscriptions, user, last) && p.months > 0
    ensures Renewed(subscriptions, user, versionId, p) == subscriptions + [RenewalRow(|subscriptions|, user, versionId, NextTerm(last, p))]
       <==> last.startsAt <= p.at
  {
    CurrentIsLast(subscriptions, user, p.at);
    var current := CurrentSubscription(subscriptions, user, p.at);
    hide CurrentSubscription, MembershipTerms.AddMonths;
    var term := MembershipTerms.ResolveMembershipChange(MembershipTerms.Renew, p.months, p.at, ExpiryOf(current));
    if last.startsAt <= p.at {
      assert Started(last, user, p.at) && current.value.expiresAt == last.expiresAt;
      assert Fits(subscriptions, user, term.startsAt, term.endsAt);
    } else {
      if current.Some? {
        var i :| 0 <= i < |subscriptions| && subscriptions[i] == last;
        var j :| 0 <= j < |subscriptions| && subscriptions[j] == current.value;
        assert Apart(subscriptions[if i < j then i else j], subscriptions[if i < j then j else i]);
      }
      assert term.startsAt < NextTerm(last, p).startsAt;
      var renewed := Renewed(subscriptions, user, versionId, p);
      assert |renewed| > |subscriptions| ==> renewed[|subscriptions|] == RenewalRow(|subscriptions|, user, versionId, term);
    }
  }

  /** Each renewal is paid after the term it continues has started. */
  predicate PaidInTurn(payments: seq<MembershipTerms.Payment>, startsAt: int, expiry: int) {
    payments == [] ||
    (var term := MembershipTerms.ResolveMembershipChange(MembershipTerms.Renew, payments[0].months, payments[0].at, Some(expiry));
     startsAt <= payments[0].at && PaidInTurn(payments[1..], term.startsAt, term.endsAt))
  }

  lemma RenewedIsLast(subscriptions: seq<Subscription>, user: nat, versionId: nat, p: MembershipTerms.Payment, last: Subscription)
    requires TermsDisjoint(subscriptions) && LastTerm(subscriptions, user, last) && p.months > 0 && last.startsAt <= p.at
    ensures var row := RenewalRow(|subscriptions|, user, versionId, NextTerm(last, p));
            && Renewed(subscriptions, user, versionId, p) == subscriptions + [row]
            && TermsDisjoint(subscriptions + [row]) && LastTerm(subscriptions + [row], user, row)
            && last.expiresAt <= row.startsAt < row.expiresAt
  {
    hide Renewed, MembershipTerms.AddMonths;
    ContinuesLastIff(subscriptions, user, versionId, p, last);
    var row := RenewalRow(|subscriptions|, user, versionId, NextTerm(last, p));
    MembershipTerms.AddMonthsSpan(row.startsAt, p.months);
    assert last.startsAt < last.expiresAt;
    assert Fits(subscriptions, user, row.startsAt, row.expiresAt);
    AddedTermDisjoint(subscriptions, row);
  }

  function RenewalRows(first: nat, user: nat, versionId: nat, terms: seq<MembershipTerms.Term>): (rows: seq<Subscription>)
    ensures |rows| == |terms| && forall i :: 0 <= i < |terms| ==> rows[i] == RenewalRow(first + i, user, versionId, terms[i])
  {
    seq(|terms|, i requires 0 <= i < |terms| => RenewalRow(first + i, user, versionId, terms[i]))
  }

  lemma RowsCons(first: nat, user: nat, versionId: nat, term: MembershipTerms.Term, terms: seq<MembershipTerms.Term>)
    ensures RenewalRows(first, user, versionId, [term] + terms) == [RenewalRow(first, user, versionId, term)] + RenewalRows(first + 1, user, versionId, terms)
  {
  }

  /** The first of the renewals, and the others after it. */
  lemma FirstRenewal(subscriptions: seq<Subscription>, user: nat, versionId: nat, payments: seq<MembershipTerms.Payment>, last: Subscription) returns (row: Subscription)
    requires TermsDisjoint(subscriptions) && LastTerm(subscriptions, user, last) && payments != []
    requires PaidInTurn(payments, last.startsAt, last.expiresAt) && forall p <- payments :: p.months > 0
    ensures row == RenewalRow(|subscriptions|, user, versionId, NextTerm(last, payments[0]))
    ensures TermsDisjoint(subscriptions + [row]) && LastTerm(subscriptions + [row], user, row)
    ensures PaidInTurn(payments[1..], row.startsAt, row.expiresAt)
    ensures RenewedAll(subscriptions, user, versionId, payments) == RenewedAll(subscriptions + [row], user, versionId, payments[1..])
    ensures MembershipTerms.Renewals(payments, Some(last.expiresAt))
         == [NextTerm(last, payments[0])] + MembershipTerms.Renewals(payments[1..], Some(row.expiresAt))
  {
    assert payments[0] in payments;
    RenewedIsLast(subscriptions, user, versionId, payments[0], last);
    hide Renewed, TermsDisjoint, LastTerm, MembershipTerms.AddMonths;
    row := RenewalRow(|subscriptions|, user, versionId, NextTerm(last, payments[0]));
  }

  /** Renewals paid in turn are all accepted, each starting when the one before ends or, if paid later, when it is paid. */
  lemma {:induction false} RenewalsTile(subscriptions: seq<Subscription>, user: nat, versionId: nat, payments: seq<MembershipTerms.Payment>, last: Subscription)
    requires TermsDisjoint(subscriptions) && LastTerm(subscriptions, user, last)
    requires PaidInTurn(payments, last.startsAt, last.expiresAt) && forall p <- payments :: p.months > 0
    ensures var after := RenewedAll(subscriptions, user, versionId, payments);
            && after == subscriptions + RenewalRows(|subscriptions|, user, versionId, MembershipTerms.Renewals(payments, Some(last.expiresAt)))
            && TermsDisjoint(after)
    decreases |payments|
  {
    if payments == [] {
      NoRenewals(subscriptions, user, versionId, last);
    } else {
      hide *;
      var row := FirstRenewal(subscriptions, user, versionId, payments, last);
      assert forall p <- payments[1..] :: p in payments;
      RenewalsTile(subscriptions + [row], user, versionId, payments[1..], row);
      RowsAfterFirst(subscriptions, user, versionId, NextTerm(last, payments[0]), MembershipTerms.Renewals(payments[1..], Some(row.expiresAt)));
    }
  }

  lemma NoRenewals(subscriptions: seq<Subscription>, user: nat, versionId: nat, last: Subscription)
    ensures RenewedAll(subscriptions, user, versionId, []) == subscriptions
    ensures subscriptions + RenewalRows(|subscriptions|, user, versionId, MembershipTerms.Renewals([], Some(last.expiresAt))) == subscriptions
  {
  }

  lemma RowsAfterFirst(subscriptions: seq<Subscription>, user: nat, versionId: nat, term: MembershipTerms.Term, rest: seq<MembershipTerms.Term>)
    ensures var row := RenewalRow(|subscriptions|, user, versionId, term);
            subscriptions + [row] + RenewalRows(|subscriptions + [row]|, user, versionId, rest)
            == subscriptions + RenewalRows(|subscriptions|, user, versionId, [term] + rest)
  {
    RowsCons(|subscriptions|, user, versionId, term, rest);
    hide *;
    var row, rows := RenewalRow(|subscriptions|, user, versionId, term), RenewalRows(|subscriptions| + 1, user, versionId, rest);
    assert |subscriptions + [row]| == |subscriptions| + 1;
    assert subscriptions + [row] + rows == subscriptions + ([row] + rows);
  }

  /** Renewals each paid within the term they continue end no later than one renewal for all the months at once would. */
  lemma RenewalsEndNoLater(subscriptions: seq<Subscription>, user: nat, versionId: nat, payments: seq<MembershipTerms.Payment>, last: Subscription)
    requires TermsDisjoint(subscriptions) && LastTerm(subscriptions, user, last) && payments != []
    requires PaidInTurn(payments, last.startsAt, last.expiresAt) && MembershipTerms.InTime(payments, last.expiresAt)
    requires forall p <- payments :: p.months > 0
    ensures var after := RenewedAll(subscriptions, user, versionId, payments);
            && |after| == |subscriptions| + |payments|
            && last.expiresAt < after[|after| - 1].expiresAt <= MembershipTerms.AddMonths(last.expiresAt, MembershipTerms.TotalMonths(payments))
  {
    RenewalsTile(subscriptions, user, versionId, payments, last);
    MembershipTerms.RenewalsNoLater(payments, last.expiresAt);
    var terms := MembershipTerms.Renewals(payments, Some(last.expiresAt));
    var rows := RenewalRows(|subscriptions|, user, versionId, terms);
    assert rows[|payments| - 1].expiresAt == terms[|payments| - 1].endsAt;
    hide *;
    var after := RenewedAll(subscriptions, user, versionId, payments);
    assert after[|after| - 1] == rows[|payments| - 1];
  }

  // ----- The courses of a paid term

  predicate SameKey(a: CourseAccess.GrantInput, b: CourseAccess.GrantInput) {
    a.userId == b.userId && a.courseId == b.courseId && a.source == b.source && a.sourceId == b.sourceId
  }

  /** No grant has the key of this input. */
  predicate KeyFree(grants: seq<CourseAccess.Grant>, i: CourseAccess.GrantInput) {
    forall g <- grants :: !CourseAccess.HasKey(g, i.userId, i.courseId, i.source, i.sourceId)
  }

  lemma {:induction false} GrantEachGrows(s: CourseAccess.Store, inputs: seq<CourseAccess.GrantInput>)
    ensures s.grants <= GrantEach(s, inputs).0.grants
    decreases |inputs|
  {
    if inputs != [] {
      var (s1, r) := CourseAccess.EnsureGrant(s, inputs[0]);
      if r.Success? {
        GrantEachGrows(s1, inputs[1..]);
      }
    }
  }

  /** An input whose key is neither taken nor asked for otherwise gets its grant. */
  lemma {:induction false} GrantEachGives(s: CourseAccess.Store, inputs: seq<CourseAccess.GrantInput>, i: CourseAccess.GrantInput)
    requires GrantEach(s, inputs).1.Success? && i in inputs && KeyFree(s.grants, i)
    requires forall j <- inputs :: SameKey(j, i) ==> j == i
    ensures exists g <- GrantEach(s, inputs).0.grants :: g == CourseAccess.NewGrant(g.id, i)
    decreases |inputs|
  {
    var s1 := CourseAccess.EnsureGrant(s, inputs[0]).0;
    assert inputs[0] in inputs && forall j <- inputs[1..] :: j in inputs;
    GrantEachGrows(s1, inputs[1..]);
    if inputs[0] == i {
      var g := CourseAccess.NewGrant(|s.grants|, i);
      assert s1.grants == s.grants + [g];
      assert g in s1.grants && g in GrantEach(s1, inputs[1..]).0.grants;
    } else {
      assert i in inputs[1..];
      GrantEachGives(s1, inputs[1..], i);
    }
  }

  /** Granting other keys leaves a key free. */
  lemma {:induction false} GrantEachSpares(s: CourseAccess.Store, inputs: seq<CourseAccess.GrantInput>, i: CourseAccess.GrantInput)
    requires KeyFree(s.grants, i) && forall j <- inputs :: !SameKey(j, i)
    ensures KeyFree(GrantEach(s, inputs).0.grants, i)
    decreases |inputs|
  {
    if inputs != [] {
      assert inputs[0] in inputs && forall j <- inputs[1..] :: j in inputs;
      var (s1, r) := CourseAccess.EnsureGrant(s, inputs[0]);
      if r.Success? {
        GrantEachSpares(s1, inputs[1..], i);
      }
    }
  }

  lemma FulfilledGrants(p: Platform, order: nat)
    requires Fulfil(p, order).1.Success? && order !in p.fulfilled
    ensures order < |p.sales.intents|
    ensures var courses := GrantEach(p.access, CourseInputs(p, order));
            && courses.1.Success? && GrantEach(courses.0, GraceInputs(p, order)).1.Success?
            && Fulfil(p, order).0.access == GrantEach(courses.0, GraceInputs(p, order)).0
  {
    hide GrantEach, CourseInputs, GraceInputs, Fits, HasTerm;
  }

  lemma AddsCourseGrants(p: Platform, order: nat, item: MembershipContinuity.Included)
    requires Fulfil(p, order).1.Success? && order !in p.fulfilled && order < |p.sales.intents|
    requires item in IncludedIn(p.sales, p.sales.intents[order])
    requires KeyFree(p.access.grants, CourseInput(p.sales.intents[order], p.lineIds(order))(item))
    ensures exists g <- Fulfil(p, order).0.access.grants :: g == CourseAccess.NewGrant(g.id, CourseInput(p.sales.intents[order], p.lineIds(order))(item))
  {
    FulfilledGrants(p, order);
    var i := p.sales.intents[order];
    var f := CourseInput(i, p.lineIds(order));
    var items := Sort(IncludedIn(p.sales, i), Fulfilment.ByCourse);
    SortMembers(IncludedIn(p.sales, i), Fulfilment.ByCourse);
    ContinuityLaws.MapMembers(items, f);
    hide Fulfil, GrantEach, Sort, Map, KeyFree, CourseAccess.NewGrant;
    var inputs := CourseInputs(p, order);
    assert f(item) in inputs;
    forall j <- inputs | SameKey(j, f(item)) ensures j == f(item) {
      var other :| other in items && f(other) == j;
      assert other.courseId == item.courseId;
    }
    GrantEachGives(p.access, inputs, f(item));
    GrantEachGrows(GrantEach(p.access, inputs).0, GraceInputs(p, order));
  }

  /** The key of a grant, part by part, is taken by no row. */
  predicate Unclaimed(grants: seq<CourseAccess.Grant>, user: nat, courseId: nat, source: CourseAccess.SourceType, sourceId: string) {
    forall g <- grants :: g.userId != user || g.courseId != courseId || g.source != source || g.sourceId != sourceId
  }

  /** An active grant from the source, from one instant to another, without grace of its own. */
  predicate GrantFor(g: CourseAccess.Grant, user: nat, courseId: nat, source: CourseAccess.SourceType, sourceId: string, from: int, to: int) {
    && g.userId == user && g.courseId == courseId && g.source == source && g.sourceId == sourceId
    && g.active && g.startsAt == from && g.endsAt == Some(to) && g.graceEndsAt.None?
  }

  /** Fulfilment opens every course of the version bought: the buyer gets an active membership grant for it, under the id
    of the order's line, from the start to the end of the term bought. */
  lemma FulfilOpensCourses(p: Platform, order: nat, item: MembershipContinuity.Included)
    requires Fulfil(p, order).1.Success? && order !in p.fulfilled && order < |p.sales.intents|
    requires var i := p.sales.intents[order]; i.versionId < |p.sales.versions| && item in p.sales.versions[i.versionId].included
    requires Unclaimed(p.access.grants, p.sales.intents[order].userId, item.courseId, CourseAccess.Membership, p.lineIds(order))
    ensures var i := p.sales.intents[order];
            exists g <- Fulfil(p, order).0.access.grants ::
              && g.userId == i.userId && g.courseId == item.courseId && g.source == CourseAccess.Membership && g.sourceId == p.lineIds(order)
              && g.active && g.startsAt == i.startsAt && g.endsAt == Some(i.endsAt) && g.graceEndsAt.None?
  {
    var i := p.sales.intents[order];
    var input := CourseInput(i, p.lineIds(order))(item);
    assert IncludedIn(p.sales, i) == p.sales.versions[i.versionId].included;
    hide Fulfil, GrantEach, IncludedIn;
    forall g <- p.access.grants ensures !CourseAccess.HasKey(g, input.userId, input.courseId, input.source, input.sourceId) {
    }
    AddsCourseGrants(p, order, item);
    var g :| g in Fulfil(p, order).0.access.grants && g == CourseAccess.NewGrant(g.id, input);
  }

  /** It gives a grace grant for each course recorded with a grace. */
  lemma FulfilGivesGrace(p: Platform, order: nat, x: MembershipContinuity.Snapshot)
    requires SnapshotsDistinct(p.sales.snapshots)
    requires Fulfil(p, order).1.Success? && order !in p.fulfilled && order < |p.sales.intents|
    requires x in p.sales.snapshots && MembershipContinuity.Due(order)(x)
    requires KeyFree(p.access.grants, GraceInput(p.sales.intents[order], p.lineIds(order), p.courseText)(x))
    ensures exists g <- Fulfil(p, order).0.access.grants ::
              g == CourseAccess.NewGrant(g.id, GraceInput(p.sales.intents[order], p.lineIds(order), p.courseText)(x))
  {
    FulfilledGrants(p, order);
    var i := p.sales.intents[order];
    var f, h := GraceInput(i, p.lineIds(order), p.courseText), CourseInput(i, p.lineIds(order));
    var due := MembershipContinuity.DueSnapshots(p.sales.snapshots, order);
    ContinuityLaws.DueMembers(p.sales.snapshots, order);
    ContinuityLaws.MapMembers(due, f);
    ContinuityLaws.MapMembers(Sort(IncludedIn(p.sales, i), Fulfilment.ByCourse), h);
    hide Fulfil, GrantEach, Sort, Map, KeyFree, CourseAccess.NewGrant, MembershipContinuity.DueSnapshots, GraceSource;
    var inputs := GraceInputs(p, order);
    assert f(x) in inputs;
    forall j <- inputs | SameKey(j, f(x)) ensures j == f(x) {
      var other :| other in due && f(other) == j;
      assert MembershipContinuity.Due(order)(other) && other.removed.courseId == x.removed.courseId;
      SameSnapshot(p.sales.snapshots, x, other);
    }
    forall j <- CourseInputs(p, order) ensures !SameKey(j, f(x)) {
    }
    GrantEachSpares(p.access, CourseInputs(p, order), f(x));
    GrantEachGives(GrantEach(p.access, CourseInputs(p, order)).0, inputs, f(x));
  }

  lemma SameSnapshot(snapshots: seq<MembershipContinuity.Snapshot>, x: MembershipContinuity.Snapshot, y: MembershipContinuity.Snapshot)
    requires SnapshotsDistinct(snapshots) && x in snapshots && y in snapshots
    requires x.intentId == y.intentId && x.removed.courseId == y.removed.courseId
    ensures x == y
  {
    var i :| 0 <= i < |snapshots| && snapshots[i] == x;
    var j :| 0 <= j < |snapshots| && snapshots[j] == y;
  }
}
