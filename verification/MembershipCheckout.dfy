/** Buying, renewing or changing a membership: one transaction from request to pending order. */
module MembershipCheckout {
  import opened Wrappers
  import opened Sorting
  import MembershipTerms
  import MembershipContinuity
  import Commerce

  datatype Duration = Duration(id: nat, months: int, price: Option<int>, discountPercent: Option<int>)

  /** A version of a plan; versions are named by their position in their table. */
  datatype PlanVersion = PlanVersion(
    planId: nat, number: nat, published: bool, planActive: bool, salesStartAt: Option<int>, salesEndAt: Option<int>,
    base: int, durations: seq<Duration>, included: seq<MembershipContinuity.Included>)

  /** A membership term; `order` names the order it was bought with, ids follow the order of insertion. */
  datatype Subscription = Subscription(
    id: nat, userId: nat, versionId: nat, order: Option<nat>, active: bool, startsAt: int, expiresAt: int)

  datatype OrderStatus = PendingPayment | Confirmed | Closed

  datatype Order = Order(buyer: nat, subtotal: int, discount: int, payable: int, status: OrderStatus)

  datatype Intent = Intent(
    order: nat, userId: nat, versionId: nat, durationId: nat, action: MembershipTerms.Action,
    startsAt: int, endsAt: int, activatesImmediately: bool)

  datatype Change = UpgradeWanted | DowngradeWanted

  datatype Input = Input(versionId: nat, durationId: nat, change: Option<Change>, confirmed: bool)

  datatype Record = Record(request: Input, completed: bool, order: nat)

  /** `ids` are the row ids that snapshots will be given. */
  datatype Store = Store(
    versions: seq<PlanVersion>, subscriptions: seq<Subscription>, activity: seq<MembershipContinuity.Activity>,
    products: map<nat, Commerce.ProductStatus>, orders: seq<Order>, intents: seq<Intent>,
    snapshots: seq<MembershipContinuity.Snapshot>, ids: nat -> string, records: map<(nat, string), Record>)

  datatype Error =
    | InvalidKey | BenefitsNotConfirmed | KeyReused | RequestInProgress | ChangePending | Unavailable | DurationUnavailable
    | ChangeKindRequired | Superseded | BadDuration | BadPrice(why: MembershipTerms.PriceError)

  // ----- Lookups

  predicate ValidKey(key: string) {
    8 <= |key| <= 128 && forall c <- key :: '!' <= c <= '~'
  }

  predicate IsPending(s: Store, user: nat, i: Intent) {
    i.userId == user && i.order < |s.orders| && s.orders[i.order].status == PendingPayment
  }

  predicate HasPending(s: Store, user: nat) {
    exists i <- s.intents :: IsPending(s, user, i)
  }

  predicate OnSale(v: PlanVersion, now: int) {
    && v.published && v.planActive
    && !(v.salesStartAt.Some? && v.salesStartAt.value > now)
    && !(v.salesEndAt.Some? && v.salesEndAt.value <= now)
  }

  function FindDuration(durations: seq<Duration>, id: nat): (r: Option<Duration>)
    ensures r.Some? ==> r.value in durations && r.value.id == id
    ensures r.None? ==> forall d <- durations :: d.id != id
  {
    if durations == [] then None
    else if durations[0].id == id then Some(durations[0])
    else FindDuration(durations[1..], id)
  }

  predicate LaterExpiry(a: Subscription, b: Subscription) {
    if a.expiresAt != b.expiresAt then a.expiresAt >= b.expiresAt else a.id <= b.id
  }

  function StartedFor(user: nat, now: int): Subscription -> bool {
    (x: Subscription) => x.userId == user && x.active && x.startsAt <= now
  }

  /** The user's started subscription that expires last. */
  function CurrentSubscription(subscriptions: seq<Subscription>, user: nat, now: int): Option<Subscription> {
    var found := Select(Sort(subscriptions, LaterExpiry), StartedFor(user, now));
    if found == [] then None else Some(found[0])
  }

  function PlanOf(s: Store, versionId: nat): Option<nat> {
    if versionId < |s.versions| then Some(s.versions[versionId].planId) else None
  }

  /** The published version of the plan with the highest number. */
  function LatestVersion(versions: seq<PlanVersion>, planId: nat): (r: Option<nat>)
    ensures r.Some? ==> r.value < |versions| && versions[r.value].planId == planId && versions[r.value].published
    ensures r.Some? ==> forall v <- versions :: v.planId == planId && v.published ==> v.number <= versions[r.value].number
    ensures r.None? ==> forall v <- versions :: !(v.planId == planId && v.published)
  {
    if versions == [] then None
    else
      var n := |versions| - 1;
      var before := LatestVersion(versions[..n], planId);
      assert forall v :: v in versions <==> v in versions[..n] || v == versions[n];
      if versions[n].planId == planId && versions[n].published && (before.None? || versions[before.value].number < versions[n].number) then Some(n)
      else before
  }

  // ----- The offer

  predicate InEffect(current: Option<Subscription>, now: int) {
    current.Some? && current.value.expiresAt > now
  }

  function ChooseAction(s: Store, current: Option<Subscription>, planId: nat, change: Option<Change>, now: int): MembershipTerms.Action {
    if current.None? then MembershipTerms.Purchase
    else if PlanOf(s, current.value.versionId) == Some(planId) then MembershipTerms.Renew
    else if !InEffect(current, now) then MembershipTerms.Purchase
    else if change == Some(DowngradeWanted) then MembershipTerms.Downgrade
    else MembershipTerms.Upgrade
  }

  function ContinuityVersion(s: Store, versionId: nat): MembershipContinuity.Version {
    MembershipContinuity.Version(versionId, if versionId < |s.versions| then s.versions[versionId].included else [])
  }

  function ExpiryOf(current: Option<Subscription>): Option<int> {
    if current.Some? then Some(current.value.expiresAt) else None
  }

  datatype Offer = Offer(
    action: MembershipTerms.Action, term: MembershipTerms.Term, removed: seq<MembershipContinuity.Removed>,
    subtotal: int, discount: int, payable: int)

  /** What the checkout would cost and bring, or why it is not to be had. */
  function Quote(s: Store, user: nat, input: Input, now: int): Result<Offer, Error> {
    if input.versionId >= |s.versions| || !OnSale(s.versions[input.versionId], now) then Failure(Unavailable)
    else
      var version := s.versions[input.versionId];
      var duration := FindDuration(version.durations, input.durationId);
      if duration.None? then Failure(DurationUnavailable)
      else
        var current := CurrentSubscription(s.subscriptions, user, now);
        var action := ChooseAction(s, current, version.planId, input.change, now);
        if InEffect(current, now) && PlanOf(s, current.value.versionId) != Some(version.planId) && input.change.None? then Failure(ChangeKindRequired)
        else if LatestVersion(s.versions, version.planId) != Some(input.versionId) then Failure(Superseded)
        else if duration.value.months <= 0 then Failure(BadDuration)
        else
          var term := MembershipTerms.ResolveMembershipChange(action, duration.value.months, now, ExpiryOf(current));
          var removed := MembershipContinuity.ResolveRemovedCourses(
            s.activity, user, if current.Some? then Some(ContinuityVersion(s, current.value.versionId)) else None,
            ContinuityVersion(s, input.versionId), ExpiryOf(current), now);
          var amount := MembershipTerms.CalculateDurationPrice(version.base, duration.value.months, duration.value.price, duration.value.discountPercent);
          if amount.Failure? then Failure(BadPrice(amount.error))
          else
            var list := if duration.value.discountPercent.None? then amount.value else version.base * duration.value.months;
            Success(Offer(action, term, removed, list, list - amount.value, amount.value))
  }

  /** `ensureActiveMembershipProduct`. */
  function EnsureProduct(products: map<nat, Commerce.ProductStatus>, versionId: nat): Result<map<nat, Commerce.ProductStatus>, Error> {
    if versionId in products && products[versionId] == Commerce.ArchivedProduct then Failure(Unavailable)
    else Success(products[versionId := Commerce.ActiveProduct])
  }

  function IntentOf(order: nat, user: nat, input: Input, offer: Offer): Intent {
    Intent(order, user, input.versionId, input.durationId, offer.action, offer.term.startsAt, offer.term.endsAt, offer.term.activatesImmediately)
  }

  /** The rows of an accepted checkout. */
  function Accept(s: Store, user: nat, key: string, input: Input, offer: Offer, products: map<nat, Commerce.ProductStatus>): Store {
    var order := |s.orders|;
    s.(products := products,
       orders := s.orders + [Order(user, offer.subtotal, offer.discount, offer.payable, PendingPayment)],
       intents := s.intents + [IntentOf(order, user, input, offer)],
       snapshots := MembershipContinuity.PersistSnapshots(s.snapshots, s.ids, |s.intents|, user, offer.removed),
       records := s.records[(user, key) := Record(input, true, order)])
  }

  /** `createCheckout`: the order's number, or why there is none; a refusal writes nothing. */
  function Checkout(s: Store, user: nat, key: string, input: Input, now: int): (Store, Result<nat, Error>) {
    if !ValidKey(key) then (s, Failure(InvalidKey))
    else if !input.confirmed then (s, Failure(BenefitsNotConfirmed))
    else if (user, key) in s.records then
      var existing := s.records[(user, key)];
      (s, if existing.request != input then Failure(KeyReused)
          else if !existing.completed then Failure(RequestInProgress)
          else Success(existing.order))
    else if HasPending(s, user) then (s, Failure(ChangePending))
    else
      var offer := Quote(s, user, input, now);
      if offer.Failure? then (s, Failure(offer.error))
      else
        var products := EnsureProduct(s.products, input.versionId);
        if products.Failure? then (s, Failure(products.error))
        else (Accept(s, user, key, input, offer.value, products.value), Success(|s.orders|))
  }

  // ----- The service

  class MembershipCheckoutService {
    var versions: seq<PlanVersion>
    var subscriptions: seq<Subscription>
    var activity: seq<MembershipContinuity.Activity>
    var products: map<nat, Commerce.ProductStatus>
    var orders: seq<Order>
    var intents: seq<Intent>
    var snapshots: seq<MembershipContinuity.Snapshot>
    var ids: nat -> string
    var records: map<(nat, string), Record>

    function State(): Store
      reads this
    {
      Store(versions, subscriptions, activity, products, orders, intents, snapshots, ids, records)
    }

    constructor (versions: seq<PlanVersion>, ids: nat -> string)
      ensures State() == Empty(versions, ids)
    {
      this.versions, this.ids := versions, ids;
      subscriptions, activity, products, orders, intents, snapshots, records := [], [], map[], [], [], [], map[];
    }

    /** The product row is created in draft and put on sale at once. */
    method EnsureActiveMembershipProduct(versionId: nat) returns (r: Result<nat, Error>)
      modifies this`products
      ensures var p := EnsureProduct(old(products), versionId);
              if p.Success? then r == Success(versionId) && products == p.value else r == Failure(p.error) && products == old(products)
    {
      if versionId in products && products[versionId] == Commerce.ArchivedProduct {
        return Failure(Unavailable);
      }
      if versionId !in products {
        products := products[versionId := Commerce.DraftProduct];
      }
      if products[versionId] == Commerce.DraftProduct {
        products := products[versionId := Commerce.ActiveProduct];
      } else {
        assert products[versionId := Commerce.ActiveProduct] == products;
      }
      r := Success(versionId);
    }

    method CreateCheckout(user: nat, key: string, input: Input, now: int) returns (r: Result<nat, Error>)
      modifies this
      ensures (State(), r) == Checkout(old(State()), user, key, input, now)
    {
      hide Quote, ValidKey, HasPending;
      if !ValidKey(key) {
        return Failure(InvalidKey);
      }
      if !input.confirmed {
        return Failure(BenefitsNotConfirmed);
      }
      if (user, key) in records {
        var existing := records[(user, key)];
        if existing.request != input {
          return Failure(KeyReused);
        }
        if !existing.completed {
          return Failure(RequestInProgress);
        }
        return Success(existing.order);
      }
      if HasPending(State(), user) {
        return Failure(ChangePending);
      }
      var offer := Quote(State(), user, input, now);
      if offer.Failure? {
        return Failure(offer.error);
      }
      var product := EnsureActiveMembershipProduct(input.versionId);
      if product.Failure? {
        return Failure(product.error);
      }
      var order := |orders|;
      records := records[(user, key) := Record(input, false, order)];
      orders := orders + [Order(user, offer.value.subtotal, offer.value.discount, offer.value.payable, PendingPayment)];
      intents := intents + [IntentOf(order, user, input, offer.value)];
      snapshots := MembershipContinuity.PersistSnapshots(snapshots, ids, |intents| - 1, user, offer.value.removed);
      records := records[(user, key) := Record(input, true, order)];
      assert records == old(records)[(user, key) := Record(input, true, order)];
      r := Success(order);
    }
  }

  // ----- Runs

  /** A checkout, an order leaving the pending state, or a change of the tables that checkouts only read. */
  datatype Op =
    | CheckoutOp(user: nat, key: string, input: Input, now: int)
    | SettleOp(order: nat, status: OrderStatus)
    | CatalogOp(versions: seq<PlanVersion>, products: map<nat, Commerce.ProductStatus>)
    | LearnerOp(subscriptions: seq<Subscription>, activity: seq<MembershipContinuity.Activity>)

  /** A pending order is confirmed or closed, once. */
  function Settle(s: Store, order: nat, status: OrderStatus): Store {
    if order < |s.orders| && s.orders[order].status == PendingPayment then s.(orders := s.orders[order := s.orders[order].(status := status)])
    else s
  }

  function Step(s: Store, op: Op): Store {
    match op
    case CheckoutOp(user, key, input, now) => Checkout(s, user, key, input, now).0
    case SettleOp(order, status) => Settle(s, order, status)
    case CatalogOp(versions, products) => s.(versions := versions, products := products)
    case LearnerOp(subscriptions, activity) => s.(subscriptions := subscriptions, activity := activity)
  }

  function Run(s: Store, ops: seq<Op>): Store
    decreases |ops|
  {
    if ops == [] then s else Run(Step(s, ops[0]), ops[1..])
  }

  function Empty(versions: seq<PlanVersion>, ids: nat -> string): Store {
    Store(versions, [], [], map[], [], [], [], ids, map[])
  }
}
