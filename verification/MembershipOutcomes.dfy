/** When a membership checkout is accepted, and every row it writes, in terms of the request and the tables alone. */
module MembershipOutcomes {
  import opened Wrappers
  import opened Sorting
  import opened MembershipCheckout
  import opened MembershipCheckoutLaws
  import MembershipTerms
  import MembershipContinuity
  import Commerce

  // ----- The subscription that counts

  predicate Running(x: Subscription, user: nat, now: int) {
    x.userId == user && x.active && x.startsAt <= now
  }

  /** Of the user's started subscriptions the one that expires last, the first written where several do. */
  ghost predicate IsCurrent(subscriptions: seq<Subscription>, user: nat, now: int, x: Subscription) {
    && x in subscriptions && Running(x, user, now)
    && forall y <- subscriptions :: Running(y, user, now) ==> y.expiresAt < x.expiresAt || (y.expiresAt == x.expiresAt && x.id <= y.id)
  }

  ghost predicate SubscriptionIdsUnique(subscriptions: seq<Subscription>) {
    forall x, y :: x in subscriptions && y in subscriptions && x.id == y.id ==> x == y
  }

  lemma LookupIsCurrent(subscriptions: seq<Subscription>, user: nat, now: int)
    ensures var current := CurrentSubscription(subscriptions, user, now);
            && (current.None? <==> forall x <- subscriptions :: !Running(x, user, now))
            && (current.Some? ==> IsCurrent(subscriptions, user, now, current.value))
  {
    var sorted := Sort(subscriptions, LaterExpiry);
    SortMembers(subscriptions, LaterExpiry);
    SortSorts(subscriptions, LaterExpiry);
    SelectKeepsOrder(sorted, StartedFor(user, now), LaterExpiry);
    var found := Select(sorted, StartedFor(user, now));
    assert forall x :: x in found <==> x in subscriptions && Running(x, user, now);
    hide Sort, Select;
    if found != [] {
      assert found[0] in found;
      forall y <- subscriptions | Running(y, user, now)
        ensures y.expiresAt < found[0].expiresAt || (y.expiresAt == found[0].expiresAt && found[0].id <= y.id)
      {
        var k :| 0 <= k < |found| && found[k] == y;
      }
    }
  }

  lemma OnlyCurrent(subscriptions: seq<Subscription>, user: nat, now: int, x: Subscription)
    requires SubscriptionIdsUnique(subscriptions) && IsCurrent(subscriptions, user, now, x)
    ensures CurrentSubscription(subscriptions, user, now) == Some(x)
  {
    LookupIsCurrent(subscriptions, user, now);
    hide CurrentSubscription;
  }

  // ----- When a version is to be had

  /** The version is published, its plan active, and its sales period, as far as it has one, has begun and not ended. */
  predicate OfferedNow(v: PlanVersion, now: int) {
    v.published && v.planActive && (v.salesStartAt.None? || v.salesStartAt.value <= now) && (v.salesEndAt.None? || now < v.salesEndAt.value)
  }

  predicate NoneNewer(versions: seq<PlanVersion>, v: PlanVersion) {
    forall w <- versions :: w.planId == v.planId && w.published ==> w.number <= v.number
  }

  /** One month at least, and either a fixed price or a discount of 0 to 100 percent, not both. */
  predicate Purchasable(base: int, d: Duration) {
    && d.months >= 1 && base >= 0
    && (|| (d.price.Some? && d.discountPercent.None? && d.price.value >= 0)
        || (d.price.None? && d.discountPercent.Some? && 0 <= d.discountPercent.value <= 100))
  }

  ghost predicate DurationsDistinct(v: PlanVersion) {
    forall c, d :: c in v.durations && d in v.durations && c.id == d.id ==> c == d
  }

  predicate OfPlan(s: Store, x: Subscription, planId: nat) {
    x.versionId < |s.versions| && s.versions[x.versionId].planId == planId
  }

  /** Leaving a membership of another plan that is in effect has to be asked for. */
  ghost predicate ChangeSettled(s: Store, user: nat, planId: nat, change: Option<Change>, now: int) {
    forall x <- s.subscriptions :: IsCurrent(s.subscriptions, user, now, x) && now < x.expiresAt && !OfPlan(s, x, planId) ==> change.Some?
  }

  lemma DurationFound(v: PlanVersion, id: nat, d: Duration)
    requires DurationsDistinct(v) && d in v.durations && d.id == id
    ensures FindDuration(v.durations, id) == Some(d)
  {
  }

  lemma PurchasableIff(base: int, d: Duration)
    ensures Purchasable(base, d) <==> d.months > 0 && MembershipTerms.CalculateDurationPrice(base, d.months, d.price, d.discountPercent).Success?
  {
  }

  lemma QuoteUnfoldsIff(s: Store, user: nat, input: Input, now: int)
    ensures Quote(s, user, input, now).Success? <==>
            && input.versionId < |s.versions| && OnSale(s.versions[input.versionId], now)
            && var v := s.versions[input.versionId];
               var d := FindDuration(v.durations, input.durationId);
               var current := CurrentSubscription(s.subscriptions, user, now);
               && d.Some? && !(InEffect(current, now) && PlanOf(s, current.value.versionId) != Some(v.planId) && input.change.None?)
               && LatestVersion(s.versions, v.planId) == Some(input.versionId)
               && d.value.months > 0 && MembershipTerms.CalculateDurationPrice(v.base, d.value.months, d.value.price, d.value.discountPercent).Success?
  {
    hide CurrentSubscription, FindDuration, LatestVersion, OnSale, ChooseAction, PlanOf, ExpiryOf, InEffect,
         MembershipTerms.ResolveMembershipChange, MembershipTerms.CalculateDurationPrice, MembershipContinuity.ResolveRemovedCourses;
  }

  lemma ChangeSettledIff(s: Store, user: nat, planId: nat, change: Option<Change>, now: int)
    requires SubscriptionIdsUnique(s.subscriptions)
    ensures var current := CurrentSubscription(s.subscriptions, user, now);
            ChangeSettled(s, user, planId, change, now) <==> !(InEffect(current, now) && PlanOf(s, current.value.versionId) != Some(planId) && change.None?)
  {
    LookupIsCurrent(s.subscriptions, user, now);
    hide CurrentSubscription;
    forall x <- s.subscriptions | IsCurrent(s.subscriptions, user, now, x) ensures CurrentSubscription(s.subscriptions, user, now) == Some(x) {
      OnlyCurrent(s.subscriptions, user, now, x);
    }
    hide IsCurrent;
  }

  lemma OnSaleIff(v: PlanVersion, now: int)
    ensures OnSale(v, now) <==> OfferedNow(v, now)
  {
  }

  /** A price is quoted exactly for a version offered now with no newer one published, for one of its durations that can be
    bought, and, where a membership of another plan is in effect, for a change that is asked for. */
  lemma QuotedIff(s: Store, user: nat, input: Input, now: int)
    requires NumbersUnique(s.versions) && SubscriptionIdsUnique(s.subscriptions) && forall v <- s.versions :: DurationsDistinct(v)
    ensures Quote(s, user, input, now).Success? <==>
            && input.versionId < |s.versions|
            && var v := s.versions[input.versionId];
               && OfferedNow(v, now) && NoneNewer(s.versions, v)
               && (exists d <- v.durations :: d.id == input.durationId && Purchasable(v.base, d))
               && ChangeSettled(s, user, v.planId, input.change, now)
  {
    QuoteUnfoldsIff(s, user, input, now);
    if input.versionId < |s.versions| {
      var v := s.versions[input.versionId];
      OnSaleIff(v, now);
      ChangeSettledIff(s, user, v.planId, input.change, now);
      LatestIff(s.versions, input.versionId);
      var d := FindDuration(v.durations, input.durationId);
      if d.Some? {
        PurchasableIff(v.base, d.value);
      }
      hide Quote, CurrentSubscription, LatestVersion, ChangeSettled, InEffect, PlanOf, NumbersUnique, SubscriptionIdsUnique,
           OnSale, OfferedNow, NoneNewer, MembershipTerms.CalculateDurationPrice;
      forall e <- v.durations | e.id == input.durationId ensures d == Some(e) {
        DurationFound(v, input.durationId, e);
      }
      hide FindDuration, Purchasable;
    }
  }

  // ----- When a checkout is accepted

  predicate KeyUsable(key: string) {
    8 <= |key| <= 128 && forall i :: 0 <= i < |key| ==> '!' <= key[i] <= '~'
  }

  /** An order of the user's is still to be paid. */
  predicate Awaiting(s: Store, user: nat) {
    exists i <- s.intents :: i.userId == user && i.order < |s.orders| && s.orders[i.order].status == PendingPayment
  }

  lemma KeyUsableIff(key: string)
    ensures ValidKey(key) <==> KeyUsable(key)
  {
    if ValidKey(key) {
      forall i | 0 <= i < |key| ensures '!' <= key[i] <= '~' {
        assert key[i] in key;
      }
    }
  }

  /** A checkout is accepted exactly for a usable key and confirmed benefits which either are on record as a completed
    request, or are new while nothing of the user's is to be paid, a price is quoted and the version's product is not
    archived.  A refusal writes nothing. */
  lemma CheckoutAcceptedIff(s: Store, user: nat, key: string, input: Input, now: int)
    ensures var (t, r) := Checkout(s, user, key, input, now);
            && (r.Success? <==>
                (KeyUsable(key) && input.confirmed
                 && if (user, key) in s.records then s.records[(user, key)] == Record(input, true, s.records[(user, key)].order)
                    else !Awaiting(s, user) && Quote(s, user, input, now).Success?
                         && !(input.versionId in s.products && s.products[input.versionId] == Commerce.ArchivedProduct)))
            && (r.Failure? || (user, key) in s.records ==> t == s)
            && (r == Failure(ChangePending) <==> KeyUsable(key) && input.confirmed && (user, key) !in s.records && Awaiting(s, user))
            && (r == Failure(BenefitsNotConfirmed) <==> KeyUsable(key) && !input.confirmed)
  {
    KeyUsableIff(key);
    assert HasPending(s, user) <==> Awaiting(s, user);
    QuoteErrors(s, user, input, now);
    hide Quote, ValidKey, KeyUsable, HasPending, Awaiting, Accept;
  }

  lemma QuoteErrors(s: Store, user: nat, input: Input, now: int)
    ensures Quote(s, user, input, now) != Failure(ChangePending) && Quote(s, user, input, now) != Failure(BenefitsNotConfirmed)
  {
    hide CurrentSubscription, FindDuration, LatestVersion, OnSale, ChooseAction, PlanOf, ExpiryOf, InEffect,
         MembershipTerms.ResolveMembershipChange, MembershipTerms.CalculateDurationPrice, MembershipContinuity.ResolveRemovedCourses;
  }

  // ----- What an accepted checkout writes

  /** What is asked of the subscription that counts: a renewal of its plan, or, while it is in effect, a change from it. */
  function ActionOver(s: Store, x: Subscription, planId: nat, change: Option<Change>, now: int): MembershipTerms.Action {
    if OfPlan(s, x, planId) then MembershipTerms.Renew
    else if x.expiresAt <= now then MembershipTerms.Purchase
    else if change == Some(DowngradeWanted) then MembershipTerms.Downgrade
    else MembershipTerms.Upgrade
  }

  /** Renewals and downgrades wait for the end of a membership in effect. */
  function StartAfter(x: Subscription, action: MembershipTerms.Action, now: int): int {
    if (action == MembershipTerms.Renew || action == MembershipTerms.Downgrade) && x.expiresAt > now then x.expiresAt else now
  }

  predicate PricesOf(o: Order, base: int, d: Duration) {
    && (d.price.Some? ==> o.subtotal == d.price.value && o.discount == 0 && o.payable == d.price.value)
    && (d.discountPercent.Some? ==>
          && o.subtotal == base * d.months && o.discount == o.subtotal - o.payable
          && 100 * o.payable <= o.subtotal * (100 - d.discountPercent.value) < 100 * (o.payable + 1))
  }

  predicate OfferPrices(offer: Offer, base: int, d: Duration) {
    PricesOf(Order(0, offer.subtotal, offer.discount, offer.payable, PendingPayment), base, d)
  }

  lemma ActionFollows(s: Store, user: nat, input: Input, now: int, x: Subscription)
    requires SubscriptionIdsUnique(s.subscriptions) && Quote(s, user, input, now).Success? && IsCurrent(s.subscriptions, user, now, x)
    ensures var offer := Quote(s, user, input, now).value;
            && input.versionId < |s.versions|
            && offer.action == ActionOver(s, x, s.versions[input.versionId].planId, input.change, now)
            && offer.term.startsAt == StartAfter(x, offer.action, now)
  {
    QuoteParts(s, user, input, now);
    OnlyCurrent(s.subscriptions, user, now, x);
    hide Quote, CurrentSubscription, FindDuration, IsCurrent, SubscriptionIdsUnique, MembershipTerms.AddMonths;
  }

  lemma PurchaseFollows(s: Store, user: nat, input: Input, now: int)
    requires Quote(s, user, input, now).Success? && forall x <- s.subscriptions :: !Running(x, user, now)
    ensures Quote(s, user, input, now).value.action == MembershipTerms.Purchase && Quote(s, user, input, now).value.term.startsAt == now
  {
    QuoteParts(s, user, input, now);
    LookupIsCurrent(s.subscriptions, user, now);
    hide Quote, CurrentSubscription, FindDuration, IsCurrent, MembershipTerms.AddMonths;
  }

  lemma PricesFollow(s: Store, user: nat, input: Input, now: int)
    requires Quote(s, user, input, now).Success?
    ensures input.versionId < |s.versions| && FindDuration(s.versions[input.versionId].durations, input.durationId).Some?
    ensures var v := s.versions[input.versionId];
            OfferPrices(Quote(s, user, input, now).value, v.base, FindDuration(v.durations, input.durationId).value)
  {
    hide Quote, FindDuration;
    AmountsOffered(s, user, input, now);
  }

  lemma DurationFollows(s: Store, user: nat, input: Input, now: int)
    requires Quote(s, user, input, now).Success?
    ensures var offer := Quote(s, user, input, now).value;
            && input.versionId < |s.versions|
            && (offer.term.activatesImmediately <==> offer.action != MembershipTerms.Downgrade)
            && exists d <- s.versions[input.versionId].durations ::
                 && d.id == input.durationId && offer.term.endsAt == MembershipTerms.AddMonths(offer.term.startsAt, d.months)
                 && OfferPrices(offer, s.versions[input.versionId].base, d)
  {
    hide Quote, CurrentSubscription, FindDuration, ChooseAction, ExpiryOf, OfferPrices, MembershipTerms.AddMonths;
    QuoteParts(s, user, input, now);
    PricesFollow(s, user, input, now);
    var d := FindDuration(s.versions[input.versionId].durations, input.durationId).value;
    assert d in s.versions[input.versionId].durations && d.id == input.durationId;
  }

  lemma QuoteTold(s: Store, user: nat, input: Input, now: int)
    requires SubscriptionIdsUnique(s.subscriptions) && Quote(s, user, input, now).Success?
    ensures var offer := Quote(s, user, input, now).value;
            && input.versionId < |s.versions|
            && var v := s.versions[input.versionId];
               && (offer.term.activatesImmediately <==> offer.action != MembershipTerms.Downgrade)
               && ((forall x <- s.subscriptions :: !Running(x, user, now)) ==> offer.action == MembershipTerms.Purchase && offer.term.startsAt == now)
               && (forall x <- s.subscriptions :: IsCurrent(s.subscriptions, user, now, x) ==>
                     offer.action == ActionOver(s, x, v.planId, input.change, now) && offer.term.startsAt == StartAfter(x, offer.action, now))
               && exists d <- v.durations ::
                    d.id == input.durationId && offer.term.endsAt == MembershipTerms.AddMonths(offer.term.startsAt, d.months) && OfferPrices(offer, v.base, d)
  {
    DurationFollows(s, user, input, now);
    hide *;
    if forall x <- s.subscriptions :: !Running(x, user, now) {
      PurchaseFollows(s, user, input, now);
    }
    forall x <- s.subscriptions | IsCurrent(s.subscriptions, user, now, x)
      ensures Quote(s, user, input, now).value.action == ActionOver(s, x, s.versions[input.versionId].planId, input.change, now)
      ensures Quote(s, user, input, now).value.term.startsAt == StartAfter(x, Quote(s, user, input, now).value.action, now)
    {
      ActionFollows(s, user, input, now, x);
    }
  }

  lemma QuoteParts(s: Store, user: nat, input: Input, now: int)
    requires Quote(s, user, input, now).Success?
    ensures var offer := Quote(s, user, input, now).value;
            && input.versionId < |s.versions|
            && var v, current := s.versions[input.versionId], CurrentSubscription(s.subscriptions, user, now);
               var d := FindDuration(v.durations, input.durationId);
               && d.Some? && d.value.months > 0
               && offer.action == ChooseAction(s, current, v.planId, input.change, now)
               && offer.term == MembershipTerms.ResolveMembershipChange(offer.action, d.value.months, now, ExpiryOf(current))
  {
    hide CurrentSubscription, FindDuration, LatestVersion, OnSale, ChooseAction, PlanOf, ExpiryOf, InEffect,
         MembershipTerms.ResolveMembershipChange, MembershipTerms.CalculateDurationPrice, MembershipContinuity.ResolveRemovedCourses;
  }

  lemma PricesMoved(s: Store, user: nat, key: string, input: Input, now: int)
    requires (user, key) !in s.records && Checkout(s, user, key, input, now).1.Success? && Quote(s, user, input, now).Success?
    ensures var t, offer := Checkout(s, user, key, input, now).0, Quote(s, user, input, now).value;
            && |t.orders| == |s.orders| + 1
            && forall base, d :: OfferPrices(offer, base, d) ==> PricesOf(t.orders[|s.orders|], base, d)
  {
    hide Checkout, Quote;
    CheckoutRows(s, user, key, input, now);
  }

  /** A newly accepted checkout adds one order to be paid and its intent, puts the version's product on sale, and records the
    request.  The action follows from the subscription that counts, the term starts at once or at that one's end and lasts
    the months of the duration, and the amounts are those of the duration. */
  lemma CheckoutWrites(s: Store, user: nat, key: string, input: Input, now: int)
    requires SubscriptionIdsUnique(s.subscriptions) && (user, key) !in s.records
    requires Checkout(s, user, key, input, now).1.Success?
    ensures var (t, r) := Checkout(s, user, key, input, now);
            && input.versionId < |s.versions| && r.value == |s.orders|
            && |t.orders| == |s.orders| + 1 && s.orders <= t.orders && |t.intents| == |s.intents| + 1 && s.intents <= t.intents
            && t.products == s.products[input.versionId := Commerce.ActiveProduct]
            && t.records == s.records[(user, key) := Record(input, true, |s.orders|)]
            && t.versions == s.versions && t.subscriptions == s.subscriptions && t.activity == s.activity
            && var v, o, i := s.versions[input.versionId], t.orders[|s.orders|], t.intents[|s.intents|];
               && o.buyer == user && o.status == PendingPayment
               && i.order == |s.orders| && i.userId == user && i.versionId == input.versionId && i.durationId == input.durationId
               && (i.activatesImmediately <==> i.action != MembershipTerms.Downgrade)
               && ((forall x <- s.subscriptions :: !Running(x, user, now)) ==> i.action == MembershipTerms.Purchase && i.startsAt == now)
               && (forall x <- s.subscriptions :: IsCurrent(s.subscriptions, user, now, x) ==>
                     i.action == ActionOver(s, x, v.planId, input.change, now) && i.startsAt == StartAfter(x, i.action, now))
               && exists d <- v.durations ::
                    d.id == input.durationId && i.endsAt == MembershipTerms.AddMonths(i.startsAt, d.months) && PricesOf(o, v.base, d)
  {
    hide Checkout, Quote, IsCurrent, Running, ActionOver, StartAfter, SubscriptionIdsUnique, PricesOf, OfferPrices, MembershipTerms.AddMonths;
    CheckoutRows(s, user, key, input, now);
    QuoteTold(s, user, input, now);
    PricesMoved(s, user, key, input, now);
  }

  lemma CheckoutRows(s: Store, user: nat, key: string, input: Input, now: int)
    requires (user, key) !in s.records && Checkout(s, user, key, input, now).1.Success?
    ensures Quote(s, user, input, now).Success?
    ensures var (t, r) := Checkout(s, user, key, input, now);
            var offer := Quote(s, user, input, now).value;
            && r.value == |s.orders|
            && t.orders == s.orders + [Order(user, offer.subtotal, offer.discount, offer.payable, PendingPayment)]
            && t.intents == s.intents + [Intent(|s.orders|, user, input.versionId, input.durationId, offer.action,
                                                offer.term.startsAt, offer.term.endsAt, offer.term.activatesImmediately)]
            && t.products == s.products[input.versionId := Commerce.ActiveProduct]
            && t.records == s.records[(user, key) := Record(input, true, |s.orders|)]
            && t.versions == s.versions && t.subscriptions == s.subscriptions && t.activity == s.activity
  {
    hide Quote, ValidKey, HasPending, MembershipContinuity.PersistSnapshots;
  }
}
