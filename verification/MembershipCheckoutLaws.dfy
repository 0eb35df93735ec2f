/** What every run of membership checkouts keeps, what terms and prices they offer, and what repeating one does. */
module MembershipCheckoutLaws {
  import opened Wrappers
  import opened Sorting
  import opened MembershipCheckout
  import MembershipTerms
  import MembershipContinuity
  import ContinuityLaws
  import Commerce

  // ----- The current subscription and the new term

  predicate Started(x: Subscription, user: nat, now: int) {
    x.userId == user && x.active && x.startsAt <= now
  }

  /** The one row the lookup returns speaks for all: none of the user's started subscriptions expires later. */
  lemma CurrentIsLast(subscriptions: seq<Subscription>, user: nat, now: int)
    ensures var current := CurrentSubscription(subscriptions, user, now);
            && (current.None? <==> forall x <- subscriptions :: !Started(x, user, now))
            && (current.Some? ==> current.value in subscriptions && Started(current.value, user, now))
            && (current.Some? ==> forall x <- subscriptions :: Started(x, user, now) ==> x.expiresAt <= current.value.expiresAt)
  {
    var sorted := Sort(subscriptions, LaterExpiry);
    SortMembers(subscriptions, LaterExpiry);
    SortSorts(subscriptions, LaterExpiry);
    SelectKeepsOrder(sorted, StartedFor(user, now), LaterExpiry);
    var found := Select(sorted, StartedFor(user, now));
    assert forall x :: StartedFor(user, now)(x) <==> Started(x, user, now);
    assert forall x :: x in found <==> x in subscriptions && Started(x, user, now);
    if found != [] {
      assert found[0] in found;
      forall x <- subscriptions | Started(x, user, now) ensures x.expiresAt <= found[0].expiresAt {
        var k :| 0 <= k < |found| && found[k] == x;
      }
    }
  }

  /** A membership is in effect exactly when some subscription covers the moment. */
  lemma InEffectIff(subscriptions: seq<Subscription>, user: nat, now: int)
    ensures InEffect(CurrentSubscription(subscriptions, user, now), now)
       <==> exists x <- subscriptions :: Started(x, user, now) && now < x.expiresAt
  {
    CurrentIsLast(subscriptions, user, now);
  }

  lemma QuoteUnfolds(s: Store, user: nat, input: Input, now: int) returns (months: int)
    requires Quote(s, user, input, now).Success?
    ensures var offer := Quote(s, user, input, now).value;
            var current := CurrentSubscription(s.subscriptions, user, now);
            && input.versionId < |s.versions| && months > 0
            && offer.action == ChooseAction(s, current, s.versions[input.versionId].planId, input.change, now)
            && !(InEffect(current, now) && PlanOf(s, current.value.versionId) != Some(s.versions[input.versionId].planId) && input.change.None?)
            && offer.term == MembershipTerms.ResolveMembershipChange(offer.action, months, now, ExpiryOf(current))
  {
    hide CurrentSubscription, FindDuration, LatestVersion, OnSale, ChooseAction, PlanOf, ExpiryOf, InEffect,
         MembershipTerms.ResolveMembershipChange, MembershipTerms.CalculateDurationPrice, MembershipContinuity.ResolveRemovedCourses;
    months := FindDuration(s.versions[input.versionId].durations, input.durationId).value.months;
  }

  /** The offered term starts no earlier than the payment, lasts 28 to 31 days a month, and, except for an upgrade,
    starts only when every subscription already started has run out.  Subscriptions that start later are not looked at.
    An upgrade is offered only over a membership of another plan in effect, a downgrade waits for its end, a renewal continues its plan. */
  lemma TermsOffered(s: Store, user: nat, input: Input, now: int)
    requires Quote(s, user, input, now).Success?
    ensures var offer := Quote(s, user, input, now).value;
            var current := CurrentSubscription(s.subscriptions, user, now);
            && input.versionId < |s.versions|
            && now <= offer.term.startsAt < offer.term.endsAt
            && (offer.action != MembershipTerms.Upgrade ==>
                  forall x <- s.subscriptions :: Started(x, user, now) ==> x.expiresAt <= offer.term.startsAt)
            && (offer.action == MembershipTerms.Renew <==> current.Some? && PlanOf(s, current.value.versionId) == Some(s.versions[input.versionId].planId))
            && (offer.action == MembershipTerms.Upgrade || offer.action == MembershipTerms.Downgrade <==>
                  InEffect(current, now) && PlanOf(s, current.value.versionId) != Some(s.versions[input.versionId].planId))
            && (offer.action == MembershipTerms.Upgrade ==> input.change == Some(UpgradeWanted) && offer.term.startsAt == now)
            && (offer.action == MembershipTerms.Downgrade ==> input.change == Some(DowngradeWanted) && offer.term.startsAt == current.value.expiresAt)
            && (offer.term.activatesImmediately <==> offer.action != MembershipTerms.Downgrade)
  {
    CurrentIsLast(s.subscriptions, user, now);
    hide Quote, CurrentSubscription, MembershipTerms.AddMonths;
    var months := QuoteUnfolds(s, user, input, now);
    assert input.change.Some? ==> input.change.value.UpgradeWanted? || input.change.value.DowngradeWanted?;
    MembershipTerms.AddMonthsSpan(Quote(s, user, input, now).value.term.startsAt, months);
  }

  /** The amounts offered are those of the price list: a discounted duration costs the exact price rounded down, and
    the discount is what it saves against the undiscounted price. */
  lemma AmountsOffered(s: Store, user: nat, input: Input, now: int)
    requires Quote(s, user, input, now).Success?
    ensures var offer := Quote(s, user, input, now).value;
            && input.versionId < |s.versions| && FindDuration(s.versions[input.versionId].durations, input.durationId).Some?
            && offer.payable == offer.subtotal - offer.discount && 0 <= offer.discount <= offer.subtotal
            && var version := s.versions[input.versionId];
               var duration := FindDuration(version.durations, input.durationId).value;
               && (duration.price.Some? <==> duration.discountPercent.None?)
               && (duration.price.Some? ==> offer.subtotal == offer.payable == duration.price.value)
               && (duration.discountPercent.Some? ==>
                     && offer.subtotal == version.base * duration.months
                     && 100 * offer.payable <= offer.subtotal * (100 - duration.discountPercent.value) < 100 * (offer.payable + 1))
  {
    hide CurrentSubscription, FindDuration, LatestVersion, OnSale, MembershipTerms.ResolveMembershipChange,
         MembershipContinuity.ResolveRemovedCourses, ChooseAction, PlanOf;
    var version := s.versions[input.versionId];
    var duration := FindDuration(version.durations, input.durationId).value;
    if duration.discountPercent.Some? {
      MembershipTerms.DiscountedPrice(version.base, duration.months, duration.discountPercent.value);
    }
  }

  ghost predicate NumbersUnique(versions: seq<PlanVersion>) {
    forall i, j :: 0 <= i < j < |versions| && versions[i].planId == versions[j].planId ==> versions[i].number != versions[j].number
  }

  /** With version numbers unique in each plan, a version is the latest exactly when it is published and none published is newer. */
  lemma LatestIff(versions: seq<PlanVersion>, v: nat)
    requires NumbersUnique(versions) && v < |versions|
    ensures LatestVersion(versions, versions[v].planId) == Some(v)
       <==> versions[v].published && forall w <- versions :: w.planId == versions[v].planId && w.published ==> w.number <= versions[v].number
  {
    var latest := LatestVersion(versions, versions[v].planId);
    assert versions[v] in versions;
    if latest.Some? && versions[v].published && forall w <- versions :: w.planId == versions[v].planId && w.published ==> w.number <= versions[v].number {
      assert versions[latest.value] in versions;
      assert versions[latest.value].number == versions[v].number;
    }
  }

  // ----- The invariant

  /** Snapshots are only added, each for its intent and for a course left out. */
  lemma {:induction false} PersistAppends(snapshots: seq<MembershipContinuity.Snapshot>, ids: nat -> string, intentId: nat, user: nat,
                                          removed: seq<MembershipContinuity.Removed>)
    ensures var after := MembershipContinuity.PersistSnapshots(snapshots, ids, intentId, user, removed);
            && snapshots <= after
            && forall x <- after[|snapshots|..] :: x.intentId == intentId && x.userId == user && x.removed in removed
    decreases |removed|
  {
    if removed != [] {
      var present := exists x <- snapshots :: x.intentId == intentId && x.removed.courseId == removed[0].courseId;
      var row := MembershipContinuity.Snapshot(ids(|snapshots|), intentId, user, removed[0]);
      var longer := if present then snapshots else snapshots + [row];
      PersistAppends(longer, ids, intentId, user, removed[1..]);
      var after := MembershipContinuity.PersistSnapshots(longer, ids, intentId, user, removed[1..]);
      forall x <- after[|snapshots|..] ensures x.intentId == intentId && x.userId == user && x.removed in removed {
        var k :| |snapshots| <= k < |after| && after[k] == x;
        if k < |longer| {
          assert after[..|longer|] == longer;
          assert x == row;
        } else {
          assert x in after[|longer|..];
        }
      }
    }
  }

  ghost predicate OrderSound(o: Order) {
    o.payable == o.subtotal - o.discount && 0 <= o.discount <= o.subtotal
  }

  /** Orders and intents go together, and each intended term is a proper interval. */
  ghost predicate IntentsOk(s: Store) {
    && |s.intents| == |s.orders|
    && (forall k :: 0 <= k < |s.orders| ==> s.intents[k].order == k && s.intents[k].userId == s.orders[k].buyer)
    && (forall k :: 0 <= k < |s.orders| ==> OrderSound(s.orders[k]) && s.intents[k].startsAt < s.intents[k].endsAt)
  }

  ghost predicate OnePending(orders: seq<Order>) {
    forall j, k :: 0 <= j < k < |orders| && orders[j].status == PendingPayment && orders[k].status == PendingPayment ==> orders[j].buyer != orders[k].buyer
  }

  predicate Recorded(records: map<(nat, string), Record>, order: nat) {
    exists a <- records :: records[a].order == order
  }

  /** Every record is completed and names an order of its user; every order has exactly one record. */
  ghost predicate RecordsOk(s: Store) {
    && (forall a <- s.records :: s.records[a].completed && s.records[a].order < |s.orders| && s.orders[s.records[a].order].buyer == a.0)
    && (forall a <- s.records, b <- s.records :: s.records[a].order == s.records[b].order ==> a == b)
    && forall k :: 0 <= k < |s.orders| ==> Recorded(s.records, k)
  }

  /** No intent has two snapshots of a course. */
  ghost predicate SnapshotsDistinct(snapshots: seq<MembershipContinuity.Snapshot>) {
    forall j, k :: 0 <= j < k < |snapshots| && snapshots[j].intentId == snapshots[k].intentId ==>
      snapshots[j].removed.courseId != snapshots[k].removed.courseId
  }

  lemma {:induction false} PersistKeepsDistinct(snapshots: seq<MembershipContinuity.Snapshot>, ids: nat -> string, intentId: nat, user: nat,
                                                removed: seq<MembershipContinuity.Removed>)
    requires SnapshotsDistinct(snapshots)
    ensures SnapshotsDistinct(MembershipContinuity.PersistSnapshots(snapshots, ids, intentId, user, removed))
    decreases |removed|
  {
    if removed != [] {
      var present := exists x <- snapshots :: x.intentId == intentId && x.removed.courseId == removed[0].courseId;
      var row := MembershipContinuity.Snapshot(ids(|snapshots|), intentId, user, removed[0]);
      PersistKeepsDistinct(if present then snapshots else snapshots + [row], ids, intentId, user, removed[1..]);
    }
  }

  /** Each snapshot belongs to an intent of its user. */
  ghost predicate SnapshotsOk(s: Store) {
    && SnapshotsDistinct(s.snapshots)
    && forall k :: 0 <= k < |s.snapshots| ==>
         s.snapshots[k].intentId < |s.intents| && s.snapshots[k].userId == s.intents[s.snapshots[k].intentId].userId
  }

  ghost predicate Valid(s: Store) {
    IntentsOk(s) && OnePending(s.orders) && RecordsOk(s) && SnapshotsOk(s)
  }

  lemma NothingPending(s: Store, user: nat)
    requires IntentsOk(s) && !HasPending(s, user)
    ensures forall k :: 0 <= k < |s.orders| && s.orders[k].status == PendingPayment ==> s.orders[k].buyer != user
  {
    forall k | 0 <= k < |s.orders| && s.orders[k].status == PendingPayment ensures s.orders[k].buyer != user {
      assert s.intents[k] in s.intents && !IsPending(s, user, s.intents[k]);
    }
  }

  lemma AcceptKeepsRecords(s: Store, user: nat, key: string, input: Input, offer: Offer, products: map<nat, Commerce.ProductStatus>)
    requires RecordsOk(s) && (user, key) !in s.records
    ensures RecordsOk(Accept(s, user, key, input, offer, products))
  {
    hide MembershipContinuity.PersistSnapshots;
    var t := Accept(s, user, key, input, offer, products);
    forall k | 0 <= k < |t.orders| ensures Recorded(t.records, k) {
      if k < |s.orders| {
        assert Recorded(s.records, k);
        var a :| a in s.records && s.records[a].order == k;
        assert t.records[a].order == k;
      } else {
        assert t.records[(user, key)].order == k;
      }
    }
  }

  lemma AcceptKeepsIntents(s: Store, user: nat, key: string, input: Input, offer: Offer, products: map<nat, Commerce.ProductStatus>)
    requires IntentsOk(s) && OnePending(s.orders) && SnapshotsOk(s) && !HasPending(s, user)
    requires offer.term.startsAt < offer.term.endsAt && offer.payable == offer.subtotal - offer.discount && 0 <= offer.discount <= offer.subtotal
    ensures var t := Accept(s, user, key, input, offer, products); IntentsOk(t) && OnePending(t.orders) && SnapshotsOk(t)
  {
    NothingPending(s, user);
    PersistAppends(s.snapshots, s.ids, |s.intents|, user, offer.removed);
    PersistKeepsDistinct(s.snapshots, s.ids, |s.intents|, user, offer.removed);
    hide SnapshotsDistinct, HasPending, MembershipContinuity.PersistSnapshots;
    var t := Accept(s, user, key, input, offer, products);
    forall k | 0 <= k < |t.snapshots| ensures t.snapshots[k].intentId < |t.intents| && t.snapshots[k].userId == t.intents[t.snapshots[k].intentId].userId {
      if k < |s.snapshots| {
        assert t.snapshots[..|s.snapshots|][k] == s.snapshots[k];
      } else {
        assert t.snapshots[k] in t.snapshots[|s.snapshots|..];
      }
    }
  }

  lemma CheckoutKeepsValid(s: Store, user: nat, key: string, input: Input, now: int)
    requires Valid(s)
    ensures Valid(Checkout(s, user, key, input, now).0)
  {
    hide Quote, ValidKey, HasPending, EnsureProduct, Accept, CurrentSubscription, FindDuration, PlanOf, RecordsOk, IntentsOk, OnePending, SnapshotsOk;
    var (t, r) := Checkout(s, user, key, input, now);
    if r.Success? && (user, key) !in s.records {
      var offer := Quote(s, user, input, now).value;
      var products := EnsureProduct(s.products, input.versionId).value;
      TermsOffered(s, user, input, now);
      AmountsOffered(s, user, input, now);
      AcceptKeepsIntents(s, user, key, input, offer, products);
      AcceptKeepsRecords(s, user, key, input, offer, products);
    }
  }

  lemma StepKeepsValid(s: Store, op: Op)
    requires Valid(s)
    ensures Valid(Step(s, op))
  {
    hide Checkout;
    match op
    case CheckoutOp(user, key, input, now) => CheckoutKeepsValid(s, user, key, input, now);
    case SettleOp(order, status) =>
      hide Recorded;
    case CatalogOp(versions, products) =>
    case LearnerOp(subscriptions, activity) =>
  }

  /** After any run each user has at most one pending checkout, every order is sound and has its intent and its one
    completed record. */
  lemma {:induction false} RunKeepsValid(s: Store, ops: seq<Op>)
    requires Valid(s)
    ensures Valid(Run(s, ops))
    decreases |ops|
  {
    hide Step, Valid;
    if ops != [] {
      StepKeepsValid(s, ops[0]);
      RunKeepsValid(Step(s, ops[0]), ops[1..]);
    }
  }

  lemma AtMostOnePending(versions: seq<PlanVersion>, ids: nat -> string, ops: seq<Op>, i: nat, j: nat)
    requires var s := Run(Empty(versions, ids), ops);
             i < j < |s.intents| && IsPending(s, s.intents[i].userId, s.intents[i]) && IsPending(s, s.intents[j].userId, s.intents[j])
    ensures var s := Run(Empty(versions, ids), ops); s.intents[i].userId != s.intents[j].userId
  {
    RunKeepsValid(Empty(versions, ids), ops);
    hide Run, RecordsOk;
  }

  // ----- From checkout to continuity

  /** The change of version a checkout stands for, for a learner with a current subscription. */
  function ChangeOf(s: Store, current: Subscription, input: Input, now: int): ContinuityLaws.VersionChange {
    ContinuityLaws.VersionChange(s.activity, current.userId, ContinuityVersion(s, current.versionId),
                                 ContinuityVersion(s, input.versionId), current.expiresAt, now)
  }

  /** An accepted checkout records, under an intent not used before, what the change of version removes: every started
    course with days of grace that the new version leaves out has a snapshot whose grace begins when the term ends. */
  lemma CheckoutRecordsRemovals(s: Store, user: nat, key: string, input: Input, now: int)
    requires Valid(s) && (user, key) !in s.records && Checkout(s, user, key, input, now).1.Success?
    requires CurrentSubscription(s.subscriptions, user, now).Some?
    ensures var t := Checkout(s, user, key, input, now).0;
            var c := ChangeOf(s, CurrentSubscription(s.subscriptions, user, now).value, input, now);
            && t.snapshots == MembershipContinuity.PersistSnapshots(s.snapshots, s.ids, |s.intents|, user, ContinuityLaws.RemovedBy(c))
            && ContinuityLaws.NewIntent(s.snapshots, |s.intents|)
            && forall item: MembershipContinuity.Included :: ContinuityLaws.LosesCourse(c, item) ==>
                 exists x <- t.snapshots ::
                   && x.intentId == |s.intents| && x.userId == user && x.removed.courseId == item.courseId
                   && x.removed.graceStartsAt == Some(c.termEnd) && x.removed.graceEndsAt == Some(ContinuityLaws.GraceEnd(c, item))
  {
    CurrentIsLast(s.subscriptions, user, now);
    var current := CurrentSubscription(s.subscriptions, user, now).value;
    var c := ChangeOf(s, current, input, now);
    var t := Checkout(s, user, key, input, now).0;
    SnapshotsOfCheckout(s, user, key, input, now);
    QuotedRemovals(s, user, input, now);
    assert ContinuityLaws.NewIntent(s.snapshots, |s.intents|) by {
      assert SnapshotsOk(s);
    }
    hide *;
    forall item: MembershipContinuity.Included | ContinuityLaws.LosesCourse(c, item)
      ensures exists x <- t.snapshots ::
                && x.intentId == |s.intents| && x.userId == user && x.removed.courseId == item.courseId
                && x.removed.graceStartsAt == Some(c.termEnd) && x.removed.graceEndsAt == Some(ContinuityLaws.GraceEnd(c, item))
    {
      assert c.learner == user by {
        ChangeLearner(s, current, input, now);
      }
      var x := ContinuityLaws.LostCourseOnRecord(c, item, s.snapshots, s.ids, |s.intents|);
    }
  }

  lemma ChangeLearner(s: Store, current: Subscription, input: Input, now: int)
    ensures ChangeOf(s, current, input, now).learner == current.userId
  {
  }

  lemma QuotedRemovals(s: Store, user: nat, input: Input, now: int)
    requires Quote(s, user, input, now).Success? && CurrentSubscription(s.subscriptions, user, now).Some?
    requires CurrentSubscription(s.subscriptions, user, now).value.userId == user
    ensures Quote(s, user, input, now).value.removed
         == ContinuityLaws.RemovedBy(ChangeOf(s, CurrentSubscription(s.subscriptions, user, now).value, input, now))
  {
    hide CurrentSubscription, FindDuration, LatestVersion, OnSale, ChooseAction, PlanOf, ContinuityVersion,
         MembershipTerms.ResolveMembershipChange, MembershipTerms.CalculateDurationPrice, MembershipContinuity.ResolveRemovedCourses;
  }

  lemma SnapshotsOfCheckout(s: Store, user: nat, key: string, input: Input, now: int)
    requires (user, key) !in s.records && Checkout(s, user, key, input, now).1.Success?
    ensures Quote(s, user, input, now).Success?
    ensures Checkout(s, user, key, input, now).0.snapshots
         == MembershipContinuity.PersistSnapshots(s.snapshots, s.ids, |s.intents|, user, Quote(s, user, input, now).value.removed)
  {
    hide Quote, ValidKey, HasPending, EnsureProduct, MembershipContinuity.PersistSnapshots;
  }

  // ----- Repeated requests

  ghost predicate Extends(later: Store, s: Store) {
    && |s.orders| <= |later.orders| && s.intents <= later.intents && s.snapshots <= later.snapshots
    && (forall k :: 0 <= k < |s.orders| ==> later.orders[k].(status := Closed) == s.orders[k].(status := Closed))
    && (forall k :: 0 <= k < |s.orders| && s.orders[k].status != PendingPayment ==> later.orders[k] == s.orders[k])
    && forall k <- s.records :: k in later.records && later.records[k] == s.records[k]
  }

  lemma StepExtends(s: Store, op: Op)
    ensures Extends(Step(s, op), s)
  {
    hide Quote, ValidKey, HasPending, MembershipContinuity.PersistSnapshots;
    if op.CheckoutOp? && Step(s, op) != s {
      PersistAppends(s.snapshots, s.ids, |s.intents|, op.user, Quote(s, op.user, op.input, op.now).value.removed);
    }
  }

  lemma {:induction false} RunExtends(s: Store, ops: seq<Op>)
    ensures Extends(Run(s, ops), s)
    decreases |ops|
  {
    hide Step;
    if ops != [] {
      StepExtends(s, ops[0]);
      RunExtends(Step(s, ops[0]), ops[1..]);
    }
  }

  lemma CheckoutRecords(s: Store, user: nat, key: string, input: Input, now: int)
    requires Checkout(s, user, key, input, now).1.Success?
    ensures var (s1, r) := Checkout(s, user, key, input, now);
            && ValidKey(key) && input.confirmed && (user, key) in s1.records
            && s1.records[(user, key)] == Record(input, true, r.value)
  {
    hide Quote, ValidKey, HasPending, MembershipContinuity.PersistSnapshots;
  }

  /** After an accepted checkout, whatever happens in between (its payment and later checkouts included), the same
    request under the same key returns the same order and writes nothing; another request under it is refused. */
  lemma ReplayIsInert(s: Store, user: nat, key: string, input: Input, now: int, between: seq<Op>, again: Input, now': int)
    requires Checkout(s, user, key, input, now).1.Success?
    ensures var (s1, r) := Checkout(s, user, key, input, now);
            var later := Run(s1, between);
            var (after, r') := Checkout(later, user, key, again, now');
            && after == later
            && (again == input ==> r' == r)
            && (again != input ==> r'.Failure?)
  {
    CheckoutRecords(s, user, key, input, now);
    var s1 := Checkout(s, user, key, input, now).0;
    RunExtends(s1, between);
    hide Quote, ValidKey, HasPending, Run, Accept, EnsureProduct;
  }

  lemma {:induction false} RunConcat(s: Store, a: seq<Op>, b: seq<Op>)
    ensures Run(s, a + b) == Run(Run(s, a), b)
    decreases |a|
  {
    hide Step;
    if a == [] {
      assert a + b == b;
    } else {
      assert (a + b)[1..] == a[1..] + b;
      RunConcat(Step(s, a[0]), a[1..], b);
    }
  }

  /** Replays may be put anywhere after the accepted request: the final state is the same. */
  lemma ReplaysAnywhere(s: Store, user: nat, key: string, input: Input, now: int, between: seq<Op>, again: Input, now': int, rest: seq<Op>)
    requires Checkout(s, user, key, input, now).1.Success?
    ensures var first, replay := CheckoutOp(user, key, input, now), CheckoutOp(user, key, again, now');
            Run(s, [first] + between + [replay] + rest) == Run(s, [first] + between + rest)
  {
    var first, replay := CheckoutOp(user, key, input, now), CheckoutOp(user, key, again, now');
    ReplayIsInert(s, user, key, input, now, between, again, now');
    hide Checkout;
    RunConcat(s, [first] + between, rest);
    RunConcat(s, [first] + between + [replay], rest);
    RunConcat(s, [first] + between, [replay]);
    RunConcat(s, [first], between);
    var later := Run(s, [first] + between);
    assert Run(s, [first]) == Step(s, first);
    assert Run(later, [replay]) == Step(later, replay);
  }
}
