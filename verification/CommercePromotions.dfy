/** What every run keeps of the vouchers used in orders: benefits, reservations, redemptions and counters. */
module CommercePromotions {
  import opened Wrappers
  import opened Sorting
  import opened Commerce
  import opened CommerceCarts
  import opened CommerceCheckout
  import opened CommerceOrders
  import CourseAccess

  // ----- The invariant

  /** A benefit row and a reservation row for the same voucher on the same order line. */
  ghost predicate Paired(orders: seq<Order>, b: Benefit, r: Reservation) {
    && b.ref == r.ref && b.voucherId == r.voucherId
    && b.ref.order < |orders| && b.ref.line < |orders[b.ref.order].lines|
    && r.buyer == orders[b.ref.order].buyer && r.consumed == orders[b.ref.order].confirmed
    && b.discount == orders[b.ref.order].lines[b.ref.line].discount
  }

  predicate HasBenefit(benefits: seq<Benefit>, ref: LineRef) {
    exists b <- benefits :: b.ref == ref
  }

  /** Benefits and reservations come in pairs, one pair at most for a line; lines without one have no discount. */
  ghost predicate PromotionsOk(orders: seq<Order>, benefits: seq<Benefit>, reservations: seq<Reservation>) {
    && |benefits| == |reservations|
    && (forall i :: 0 <= i < |benefits| ==> Paired(orders, benefits[i], reservations[i]))
    && (forall i, j :: 0 <= i < j < |benefits| ==> benefits[i].ref != benefits[j].ref)
    && forall k, i :: 0 <= k < |orders| && 0 <= i < |orders[k].lines| && orders[k].lines[i].discount > 0 ==> HasBenefit(benefits, LineRef(k, i))
  }

  /** The discount allocated to an order's lines. */
  function Allocated(benefits: seq<Benefit>, order: nat): int {
    if benefits == [] then 0
    else
      var last := benefits[|benefits| - 1];
      Allocated(benefits[..|benefits| - 1], order) + if last.ref.order == order then last.discount else 0
  }

  ghost predicate AllocationsOk(orders: seq<Order>, benefits: seq<Benefit>) {
    forall k :: 0 <= k < |orders| ==> Allocated(benefits, k) == orders[k].discount
  }

  /** The redemption a consumed reservation stands for. */
  function RedemptionFor(orders: seq<Order>, r: Reservation): Redemption {
    if r.ref.order < |orders| && r.ref.line < |orders[r.ref.order].lines| then
      var l := orders[r.ref.order].lines[r.ref.line];
      Redemption(r.voucherId, r.buyer, l.courseId, l.listPrice, l.discount, l.finalPrice)
    else Redemption(r.voucherId, r.buyer, 0, 0, 0, 0)
  }

  function RedemptionsFor(orders: seq<Order>, reservations: seq<Reservation>): seq<Redemption> {
    if reservations == [] then []
    else
      var last := reservations[|reservations| - 1];
      RedemptionsFor(orders, reservations[..|reservations| - 1]) + if last.consumed then [RedemptionFor(orders, last)] else []
  }

  function Times(redemptions: seq<Redemption>, voucherId: nat): nat {
    if redemptions == [] then 0
    else Times(redemptions[..|redemptions| - 1], voucherId) + if redemptions[|redemptions| - 1].voucherId == voucherId then 1 else 0
  }

  /** The redemptions are those of the consumed reservations, in order, and each voucher's counter counts its own. */
  ghost predicate RedemptionsOk(s: Store) {
    && s.redemptions == RedemptionsFor(s.orders, s.reservations)
    && forall v :: CountOf(s.redeemed, v) == Times(s.redemptions, v)
  }

  ghost predicate VouchersOk(s: Store) {
    PromotionsOk(s.orders, s.benefits, s.reservations) && AllocationsOk(s.orders, s.benefits) && RedemptionsOk(s)
  }

  // ----- The rows of one order

  predicate BenefitFor(order: nat, priced: seq<PricedLine>, b: Benefit) {
    && b.ref.order == order && b.ref.line < |priced| && priced[b.ref.line].voucher.Some?
    && b.voucherId == priced[b.ref.line].voucher.value.id && b.discount == priced[b.ref.line].discount
  }

  lemma {:induction false} RowsOfOrder(order: nat, buyer: nat, priced: seq<PricedLine>, on: bool)
    ensures var bs, rs := BenefitsOf(order, priced), ReservationsOf(order, buyer, priced, on);
            && |bs| == |rs|
            && (forall i :: 0 <= i < |bs| ==> BenefitFor(order, priced, bs[i]) && rs[i] == Reservation(bs[i].ref, buyer, bs[i].voucherId, on))
            && (forall i, j :: 0 <= i < j < |bs| ==> bs[i].ref.line < bs[j].ref.line)
            && forall i :: 0 <= i < |priced| && priced[i].voucher.Some? ==> HasBenefit(bs, LineRef(order, i))
  {
    if priced != [] {
      var n := |priced| - 1;
      RowsOfOrder(order, buyer, priced[..n], on);
      var before, bs := BenefitsOf(order, priced[..n]), BenefitsOf(order, priced);
      forall i | 0 <= i < |priced| && priced[i].voucher.Some? ensures HasBenefit(bs, LineRef(order, i)) {
        if i < n {
          assert priced[..n][i] == priced[i];
          var b :| b in before && b.ref == LineRef(order, i);
          assert b in bs;
        } else {
          assert bs[|bs| - 1].ref == LineRef(order, i);
        }
      }
    }
  }

  lemma {:induction false} AllocatedConcat(a: seq<Benefit>, b: seq<Benefit>, order: nat)
    ensures Allocated(a + b, order) == Allocated(a, order) + Allocated(b, order)
  {
    if b == [] {
      assert a + b == a;
    } else {
      AllocatedConcat(a, b[..|b| - 1], order);
      assert (a + b)[..|a + b| - 1] == a + b[..|b| - 1];
    }
  }

  lemma {:induction false} AllocatedNone(benefits: seq<Benefit>, order: nat)
    requires forall i :: 0 <= i < |benefits| ==> benefits[i].ref.order != order
    ensures Allocated(benefits, order) == 0
  {
    if benefits != [] {
      AllocatedNone(benefits[..|benefits| - 1], order);
    }
  }

  lemma {:induction false} AllocatedOfOrder(order: nat, priced: seq<PricedLine>)
    requires PricedOk(priced)
    ensures Allocated(BenefitsOf(order, priced), order) == DiscountTotal(priced)
  {
    if priced != [] {
      var n := |priced| - 1;
      AllocatedOfOrder(order, priced[..n]);
      if priced[n].voucher.Some? {
        var b := Benefit(LineRef(order, n), priced[n].voucher.value.id, priced[n].voucher.value.sourceVersion, priced[n].discount);
        AllocatedConcat(BenefitsOf(order, priced[..n]), [b], order);
        assert [b][..0] == [];
      } else {
        assert BenefitsOf(order, priced) == BenefitsOf(order, priced[..n]);
      }
    }
  }

  lemma {:induction false} RedemptionsForConcat(orders: seq<Order>, a: seq<Reservation>, b: seq<Reservation>)
    ensures RedemptionsFor(orders, a + b) == RedemptionsFor(orders, a) + RedemptionsFor(orders, b)
  {
    if b == [] {
      assert a + b == a;
    } else {
      RedemptionsForConcat(orders, a, b[..|b| - 1]);
      assert (a + b)[..|a + b| - 1] == a + b[..|b| - 1];
    }
  }

  lemma {:induction false} RedemptionsForMoreOrders(orders: seq<Order>, later: seq<Order>, reservations: seq<Reservation>)
    requires orders <= later && forall i :: 0 <= i < |reservations| ==> reservations[i].ref.order < |orders|
    ensures RedemptionsFor(later, reservations) == RedemptionsFor(orders, reservations)
  {
    if reservations != [] {
      RedemptionsForMoreOrders(orders, later, reservations[..|reservations| - 1]);
      assert forall k :: 0 <= k < |orders| ==> later[k] == orders[k];
    }
  }

  lemma RedemptionsForSnoc(orders: seq<Order>, before: seq<Reservation>, r: Reservation)
    ensures RedemptionsFor(orders, before + [r]) == RedemptionsFor(orders, before) + if r.consumed then [RedemptionFor(orders, r)] else []
  {
    assert (before + [r])[..|before|] == before;
  }

  lemma RedemptionsOfSnoc(buyer: nat, before: seq<PricedLine>, l: PricedLine)
    ensures RedemptionsOf(buyer, before + [l]) == RedemptionsOf(buyer, before) + [RedemptionOf(buyer, l)]
  {
    assert (before + [l])[..|before|] == before;
  }

  function ReservationOf(order: nat, buyer: nat, line: nat, voucherId: nat, on: bool): Reservation {
    Reservation(LineRef(order, line), buyer, voucherId, on)
  }

  lemma ReservationsSnoc(order: nat, buyer: nat, priced: seq<PricedLine>, on: bool)
    requires priced != []
    ensures var n := |priced| - 1;
            var before := ReservationsOf(order, buyer, priced[..n], on);
            && (priced[n].voucher.Some? ==>
                  ReservationsOf(order, buyer, priced, on) == before + [ReservationOf(order, buyer, n, priced[n].voucher.value.id, on)])
            && (priced[n].voucher.None? ==> ReservationsOf(order, buyer, priced, on) == before)
  {
  }

  lemma RedemptionForLine(orders: seq<Order>, order: nat, buyer: nat, all: seq<PricedLine>, n: nat, on: bool)
    requires order < |orders| && orders[order].lines == OrderLinesOf(all) && n < |all| && all[n].voucher.Some?
    ensures var r := ReservationOf(order, buyer, n, all[n].voucher.value.id, on);
            r.consumed == on && RedemptionFor(orders, r) == RedemptionOf(buyer, all[n])
  {
  }

  /** A confirmed order redeems each of its voucher lines once; one awaiting payment redeems nothing. */
  lemma {:induction false} RedemptionsOfOrder(orders: seq<Order>, order: nat, buyer: nat, all: seq<PricedLine>, priced: seq<PricedLine>, on: bool)
    requires order < |orders| && orders[order].lines == OrderLinesOf(all) && priced <= all
    ensures RedemptionsFor(orders, ReservationsOf(order, buyer, priced, on))
         == if on then RedemptionsOf(buyer, Select(priced, HasVoucher())) else []
  {
    if priced != [] {
      hide *;
      var n := |priced| - 1;
      var before := priced[..n];
      assert priced == before + [priced[n]] && all[n] == priced[n];
      RedemptionsOfOrder(orders, order, buyer, all, before, on);
      SelectSnoc(before, priced[n]);
      ReservationsSnoc(order, buyer, priced, on);
      if priced[n].voucher.Some? {
        RedemptionForLine(orders, order, buyer, all, n, on);
        RedemptionsForSnoc(orders, ReservationsOf(order, buyer, before, on), ReservationOf(order, buyer, n, priced[n].voucher.value.id, on));
        RedemptionsOfSnoc(buyer, Select(before, HasVoucher()), priced[n]);
      } else {
        assert Select(before, HasVoucher()) + [] == Select(before, HasVoucher());
      }
    }
  }

  lemma SelectSnoc(before: seq<PricedLine>, l: PricedLine)
    ensures Select(before + [l], HasVoucher()) == Select(before, HasVoucher()) + if l.voucher.Some? then [l] else []
  {
    SelectConcat(before, [l], HasVoucher());
    assert HasVoucher()(l) == l.voucher.Some?;
    assert [l][1..] == [];
  }

  lemma TimesSnoc(redemptions: seq<Redemption>, r: Redemption, v: nat)
    ensures Times(redemptions + [r], v) == Times(redemptions, v) + if r.voucherId == v then 1 else 0
  {
    assert (redemptions + [r])[..|redemptions|] == redemptions;
  }

  lemma RedeemSnoc(redeemed: map<nat, nat>, buyer: nat, used: seq<PricedLine>, v: nat)
    requires used != [] && used[|used| - 1].voucher.Some?
    ensures var n := |used| - 1;
            && RedemptionsOf(buyer, used) == RedemptionsOf(buyer, used[..n]) + [RedemptionOf(buyer, used[n])]
            && CountOf(Redeem(redeemed, used), v)
               == CountOf(Redeem(redeemed, used[..n]), v) + if RedemptionOf(buyer, used[n]).voucherId == v then 1 else 0
  {
  }

  lemma {:induction false} CounterKeepsPace(redemptions: seq<Redemption>, redeemed: map<nat, nat>, buyer: nat, used: seq<PricedLine>, v: nat)
    requires CountOf(redeemed, v) == Times(redemptions, v) && forall l <- used :: l.voucher.Some?
    ensures CountOf(Redeem(redeemed, used), v) == Times(redemptions + RedemptionsOf(buyer, used), v)
  {
    if used == [] {
      assert redemptions + RedemptionsOf(buyer, used) == redemptions;
    } else {
      var n := |used| - 1;
      hide *;
      assert used[n] in used && forall l <- used[..n] :: l in used;
      CounterKeepsPace(redemptions, redeemed, buyer, used[..n], v);
      RedeemSnoc(redeemed, buyer, used, v);
      var before := redemptions + RedemptionsOf(buyer, used[..n]);
      assert redemptions + RedemptionsOf(buyer, used) == before + [RedemptionOf(buyer, used[n])];
      TimesSnoc(before, RedemptionOf(buyer, used[n]), v);
    }
  }

  // ----- Placing an order

  /** The rows an accepted checkout adds. */
  ghost predicate AddsOrder(s: Store, t: Store, buyer: nat, priced: seq<PricedLine>) {
    var order := |s.orders|;
    && |t.orders| == order + 1 && s.orders <= t.orders
    && t.orders[order].buyer == buyer && t.orders[order].lines == OrderLinesOf(priced) && t.orders[order].discount == DiscountTotal(priced)
    && t.benefits == s.benefits + BenefitsOf(order, priced)
    && t.reservations == s.reservations + ReservationsOf(order, buyer, priced, t.orders[order].confirmed)
    && t.redemptions == s.redemptions + (if t.orders[order].confirmed then RedemptionsOf(buyer, Select(priced, HasVoucher())) else [])
    && t.redeemed == if t.orders[order].confirmed then Redeem(s.redeemed, Select(priced, HasVoucher())) else s.redeemed
  }

  lemma PlaceAddsOrder(s: Store, buyer: nat, key: string, request: Request, cart: nat, selected: seq<CartLine>, priced: seq<PricedLine>)
    requires cart < |s.carts|
    ensures AddsOrder(s, Place(s, buyer, key, request, cart, selected, priced), buyer, priced)
  {
    hide Select, Renumbered, BenefitsOf, ReservationsOf, OrderLinesOf, RedemptionsOf, Redeem, ListTotal, DiscountTotal;
  }

  lemma AddedOrderKeepsPromotions(s: Store, t: Store, buyer: nat, priced: seq<PricedLine>)
    requires PromotionsOk(s.orders, s.benefits, s.reservations) && PricedOk(priced) && AddsOrder(s, t, buyer, priced)
    ensures PromotionsOk(t.orders, t.benefits, t.reservations)
  {
    var order := |s.orders|;
    RowsOfOrder(order, buyer, priced, t.orders[order].confirmed);
    hide BenefitsOf, ReservationsOf, RedemptionsOf, Redeem, DiscountTotal, Select;
    var before, added := s.benefits, BenefitsOf(order, priced);
    forall k | 0 <= k < |s.orders| ensures t.orders[k] == s.orders[k] {
    }
    forall i | 0 <= i < |t.benefits| ensures Paired(t.orders, t.benefits[i], t.reservations[i]) {
      if i < |before| {
        assert Paired(s.orders, before[i], s.reservations[i]);
      } else {
        assert t.benefits[i] == added[i - |before|];
        assert BenefitFor(order, priced, added[i - |before|]);
      }
    }
    forall i, j | 0 <= i < j < |t.benefits| ensures t.benefits[i].ref != t.benefits[j].ref {
      if i < |before| <= j {
        assert Paired(s.orders, before[i], s.reservations[i]) && BenefitFor(order, priced, added[j - |before|]);
      }
    }
    forall k, i | 0 <= k < |t.orders| && 0 <= i < |t.orders[k].lines| && t.orders[k].lines[i].discount > 0 ensures HasBenefit(t.benefits, LineRef(k, i)) {
      if k < order {
        assert HasBenefit(before, LineRef(k, i));
        var b :| b in before && b.ref == LineRef(k, i);
        assert b in t.benefits;
      } else {
        assert HasBenefit(added, LineRef(k, i));
        var b :| b in added && b.ref == LineRef(k, i);
        assert b in t.benefits;
      }
    }
  }

  lemma AddedOrderKeepsAllocations(s: Store, t: Store, buyer: nat, priced: seq<PricedLine>)
    requires PromotionsOk(s.orders, s.benefits, s.reservations) && AllocationsOk(s.orders, s.benefits)
    requires PricedOk(priced) && AddsOrder(s, t, buyer, priced)
    ensures AllocationsOk(t.orders, t.benefits)
  {
    var order := |s.orders|;
    RowsOfOrder(order, buyer, priced, t.orders[order].confirmed);
    hide BenefitsOf, ReservationsOf, RedemptionsOf, Redeem, DiscountTotal, Select, Allocated;
    forall k | 0 <= k < |t.orders| ensures Allocated(t.benefits, k) == t.orders[k].discount {
      AllocatedConcat(s.benefits, BenefitsOf(order, priced), k);
      if k < order {
        AllocatedNone(BenefitsOf(order, priced), k);
        assert t.orders[k] == s.orders[k];
      } else {
        forall i | 0 <= i < |s.benefits| ensures s.benefits[i].ref.order != order {
          assert Paired(s.orders, s.benefits[i], s.reservations[i]);
        }
        AllocatedNone(s.benefits, order);
        AllocatedOfOrder(order, priced);
      }
    }
  }

  lemma AddedOrderKeepsRedemptions(s: Store, t: Store, buyer: nat, priced: seq<PricedLine>)
    requires PromotionsOk(s.orders, s.benefits, s.reservations) && RedemptionsOk(s) && AddsOrder(s, t, buyer, priced)
    ensures RedemptionsOk(t)
  {
    var order := |s.orders|;
    var on := t.orders[order].confirmed;
    var used := Select(priced, HasVoucher());
    assert forall l <- used :: l.voucher.Some?;
    hide BenefitsOf, ReservationsOf, RedemptionsOf, Redeem, DiscountTotal, Select, RedemptionsFor, Times, OrderLinesOf;
    RedemptionsForConcat(t.orders, s.reservations, ReservationsOf(order, buyer, priced, on));
    forall i | 0 <= i < |s.reservations| ensures s.reservations[i].ref.order < |s.orders| {
      assert Paired(s.orders, s.benefits[i], s.reservations[i]);
    }
    RedemptionsForMoreOrders(s.orders, t.orders, s.reservations);
    RedemptionsOfOrder(t.orders, order, buyer, priced, priced, on);
    forall v ensures CountOf(Redeem(s.redeemed, used), v) == Times(s.redemptions + RedemptionsOf(buyer, used), v) {
      CounterKeepsPace(s.redemptions, s.redeemed, buyer, used, v);
    }
    assert !on ==> t.redemptions == s.redemptions;
  }

  lemma PlaceKeepsVouchers(s: Store, buyer: nat, key: string, request: Request, cart: nat, selected: seq<CartLine>, priced: seq<PricedLine>)
    requires VouchersOk(s) && PricedOk(priced) && cart < |s.carts|
    ensures VouchersOk(Place(s, buyer, key, request, cart, selected, priced))
  {
    hide PricedOk, PromotionsOk, AllocationsOk, RedemptionsOk, AddsOrder, Place;
    var t := Place(s, buyer, key, request, cart, selected, priced);
    PlaceAddsOrder(s, buyer, key, request, cart, selected, priced);
    AddedOrderKeepsPromotions(s, t, buyer, priced);
    AddedOrderKeepsAllocations(s, t, buyer, priced);
    AddedOrderKeepsRedemptions(s, t, buyer, priced);
  }

  // ----- Steps and runs

  lemma StepKeepsVouchers(s: Store, op: Op)
    requires VouchersOk(s) && (op.CreateOrderOp? ==> Fair(op.evaluate))
    ensures VouchersOk(Step(s, op))
  {
    hide CreateOrder, PromotionsOk, AllocationsOk, Fair, Place, Select, PriceLines, Normalize, CheckoutError, ActiveCart, AddCourse, RemoveCourse, ClearCart;
    hide RedemptionsFor, Times, PricedOk;
    if op.CreateOrderOp? {
      RefusalChangesNothing(s, op.buyer, op.key, op.courses, op.applications, op.evaluate, op.now);
      if Step(s, op) != s {
        var request, k, selected, priced := OrderUnfolds(s, op.buyer, op.key, op.courses, op.applications, op.evaluate, op.now);
        PricesAreOk(s, s.carts[k].currency, selected, request.applications, op.evaluate);
        PlaceKeepsVouchers(s, op.buyer, op.key, request, k, selected, priced);
      }
    } else {
      OtherSteps(s, op);
    }
  }

  /** After any run each line bought with a voucher has one benefit and one reservation, consumed exactly when its
    order is confirmed; the benefits of an order sum to its discount; the redemptions are those of the consumed
    reservations; and each voucher's counter is the number of its redemptions. */
  lemma {:induction false} RunKeepsVouchers(s: Store, ops: seq<Op>)
    requires VouchersOk(s) && FairRun(ops)
    ensures VouchersOk(Run(s, ops))
    decreases |ops|
  {
    hide Step, VouchersOk, Fair;
    if ops != [] {
      assert ops[0] in ops && forall op <- ops[1..] :: op in ops;
      StepKeepsVouchers(s, ops[0]);
      RunKeepsVouchers(Step(s, ops[0]), ops[1..]);
    }
  }

  /** The whole invariant holds of everything reachable from empty tables. */
  lemma ReachableStoresOk(access: CourseAccess.Store, ops: seq<Op>)
    requires FairRun(ops)
    ensures OrderTablesOk(Run(Empty(access), ops)) && VouchersOk(Run(Empty(access), ops))
  {
    EmptyTablesOk(access);
    RunKeepsTables(Empty(access), ops);
    RunKeepsVouchers(Empty(access), ops);
  }

  // ----- Which lines have a benefit

  predicate HasReservation(reservations: seq<Reservation>, ref: LineRef) {
    exists r <- reservations :: r.ref == ref
  }

  /** Pricing applies a voucher to a line exactly when the request has a code for its course. */
  lemma VoucherIffCode(s: Store, currency: string, lines: seq<CartLine>, applications: seq<Application>, evaluate: Evaluator)
    requires PriceLines(s, currency, lines, applications, evaluate).Success?
    ensures var priced := PriceLines(s, currency, lines, applications, evaluate).value;
            |priced| == |lines| && forall i :: 0 <= i < |priced| ==> (priced[i].voucher.Some? <==> CodeFor(applications, priced[i].courseId).Some?)
  {
    PricedEach(s, currency, lines, applications, evaluate);
    hide PriceLines, Sellable, CodeFor;
    var priced := PriceLines(s, currency, lines, applications, evaluate).value;
    forall i | 0 <= i < |priced| ensures priced[i].voucher.Some? <==> CodeFor(applications, priced[i].courseId).Some? {
      assert PriceLine(s, currency, lines[i], applications, evaluate) == Success(priced[i]);
    }
  }

  /** The rows of an order are for its voucher lines and no others. */
  lemma RowsOfOrderIff(order: nat, buyer: nat, priced: seq<PricedLine>, on: bool, i: nat)
    requires i < |priced|
    ensures HasBenefit(BenefitsOf(order, priced), LineRef(order, i)) <==> priced[i].voucher.Some?
    ensures HasReservation(ReservationsOf(order, buyer, priced, on), LineRef(order, i)) <==> priced[i].voucher.Some?
  {
    RowsOfOrder(order, buyer, priced, on);
    hide BenefitsOf, ReservationsOf;
    var bs, rs := BenefitsOf(order, priced), ReservationsOf(order, buyer, priced, on);
    if b :| b in bs && b.ref == LineRef(order, i) {
      assert BenefitFor(order, priced, b);
      var k :| 0 <= k < |bs| && bs[k] == b;
      assert rs[k] in rs;
    }
    if r :| r in rs && r.ref == LineRef(order, i) {
      var k :| 0 <= k < |rs| && rs[k] == r;
      assert BenefitFor(order, priced, bs[k]);
    }
  }

  /** Rows of earlier orders stay as they are; new rows are for new orders. */
  ghost predicate RowsGrow(s: Store, t: Store) {
    && s.orders <= t.orders && s.benefits <= t.benefits && s.reservations <= t.reservations
    && (forall b <- t.benefits[|s.benefits|..] :: b.ref.order >= |s.orders|)
    && (forall r <- t.reservations[|s.reservations|..] :: r.ref.order >= |s.orders|)
  }

  lemma AddedRowsGrow(s: Store, t: Store, buyer: nat, priced: seq<PricedLine>)
    requires AddsOrder(s, t, buyer, priced)
    ensures RowsGrow(s, t)
  {
    var order := |s.orders|;
    RowsOfOrder(order, buyer, priced, t.orders[order].confirmed);
    hide BenefitsOf, ReservationsOf, RedemptionsOf, Redeem, DiscountTotal, Select;
    var bs, rs := BenefitsOf(order, priced), ReservationsOf(order, buyer, priced, t.orders[order].confirmed);
    assert t.benefits[|s.benefits|..] == bs && t.reservations[|s.reservations|..] == rs;
    forall b <- bs ensures b.ref.order >= order {
      assert BenefitFor(order, priced, b);
    }
    forall r <- rs ensures r.ref.order >= order {
      var k :| 0 <= k < |rs| && rs[k] == r;
      assert BenefitFor(order, priced, bs[k]);
    }
  }

  lemma StepRowsGrow(s: Store, op: Op)
    ensures RowsGrow(s, Step(s, op))
  {
    hide CreateOrder, Place, Select, PriceLines, Normalize, CheckoutError, ActiveCart, AddCourse, RemoveCourse, ClearCart, AddsOrder;
    if op.CreateOrderOp? {
      RefusalChangesNothing(s, op.buyer, op.key, op.courses, op.applications, op.evaluate, op.now);
      if Step(s, op) != s {
        var request, k, selected, priced := OrderUnfolds(s, op.buyer, op.key, op.courses, op.applications, op.evaluate, op.now);
        PlaceAddsOrder(s, op.buyer, op.key, request, k, selected, priced);
        AddedRowsGrow(s, Step(s, op), op.buyer, priced);
      }
    } else {
      OtherSteps(s, op);
    }
  }

  lemma RowsGrowTwice(s: Store, t: Store, u: Store)
    requires RowsGrow(s, t) && RowsGrow(t, u)
    ensures RowsGrow(s, u)
  {
    forall b <- u.benefits[|s.benefits|..] ensures b.ref.order >= |s.orders| {
      var k :| |s.benefits| <= k < |u.benefits| && u.benefits[k] == b;
      if k < |t.benefits| {
        assert t.benefits[k] in t.benefits[|s.benefits|..];
      } else {
        assert b in u.benefits[|t.benefits|..];
      }
    }
    forall r <- u.reservations[|s.reservations|..] ensures r.ref.order >= |s.orders| {
      var k :| |s.reservations| <= k < |u.reservations| && u.reservations[k] == r;
      if k < |t.reservations| {
        assert t.reservations[k] in t.reservations[|s.reservations|..];
      } else {
        assert r in u.reservations[|t.reservations|..];
      }
    }
  }

  lemma {:induction false} RunRowsGrow(s: Store, ops: seq<Op>)
    ensures RowsGrow(s, Run(s, ops))
    decreases |ops|
  {
    if ops != [] {
      StepRowsGrow(s, ops[0]);
      RunRowsGrow(Step(s, ops[0]), ops[1..]);
      hide Step, RowsGrow;
      RowsGrowTwice(s, Step(s, ops[0]), Run(s, ops));
    }
  }

  lemma EarlierRowsOnly(s: Store, t: Store, ref: LineRef)
    requires RowsGrow(s, t) && ref.order < |s.orders|
    ensures HasBenefit(t.benefits, ref) <==> HasBenefit(s.benefits, ref)
    ensures HasReservation(t.reservations, ref) <==> HasReservation(s.reservations, ref)
  {
    assert t.benefits == s.benefits + t.benefits[|s.benefits|..];
    assert t.reservations == s.reservations + t.reservations[|s.reservations|..];
  }

  lemma NewRowsOnly(s: Store, t: Store, buyer: nat, priced: seq<PricedLine>, i: nat)
    requires PromotionsOk(s.orders, s.benefits, s.reservations) && AddsOrder(s, t, buyer, priced) && i < |priced|
    ensures HasBenefit(t.benefits, LineRef(|s.orders|, i)) <==> priced[i].voucher.Some?
    ensures HasReservation(t.reservations, LineRef(|s.orders|, i)) <==> priced[i].voucher.Some?
  {
    var order := |s.orders|;
    RowsOfOrderIff(order, buyer, priced, t.orders[order].confirmed, i);
    hide BenefitsOf, ReservationsOf, RedemptionsOf, Redeem, DiscountTotal, Select;
    forall k | 0 <= k < |s.benefits| ensures s.benefits[k].ref.order < order && s.reservations[k].ref.order < order {
      assert Paired(s.orders, s.benefits[k], s.reservations[k]);
    }
  }

  /** From then on, whatever happens, a line of an accepted order has a benefit and a reservation exactly when the request
    had a code for its course, even where the voucher was worth nothing. */
  lemma BenefitIffCode(s: Store, buyer: nat, key: string, courses: Option<seq<nat>>, applications: seq<Application>, evaluate: Evaluator, now: int,
                       ops: seq<Op>, i: nat)
    requires VouchersOk(s) && (buyer, key) !in s.records
    requires CreateOrder(s, buyer, key, courses, applications, evaluate, now).1.Success?
    requires var t := CreateOrder(s, buyer, key, courses, applications, evaluate, now).0; |s.orders| < |t.orders| && i < |t.orders[|s.orders|].lines|
    ensures var later := Run(CreateOrder(s, buyer, key, courses, applications, evaluate, now).0, ops);
            && Normalize(courses, applications).Success? && |s.orders| < |later.orders| && i < |later.orders[|s.orders|].lines|
            && var code := CodeFor(Normalize(courses, applications).value.applications, later.orders[|s.orders|].lines[i].courseId);
               && (HasBenefit(later.benefits, LineRef(|s.orders|, i)) <==> code.Some?)
               && (HasReservation(later.reservations, LineRef(|s.orders|, i)) <==> code.Some?)
  {
    var request, k, selected, priced := OrderUnfolds(s, buyer, key, courses, applications, evaluate, now);
    VoucherIffCode(s, s.carts[k].currency, selected, request.applications, evaluate);
    PlaceAddsOrder(s, buyer, key, request, k, selected, priced);
    var t := CreateOrder(s, buyer, key, courses, applications, evaluate, now).0;
    hide CreateOrder, Place, Select, PriceLines, Normalize, CheckoutError, ActiveCart, PromotionsOk, AllocationsOk, RedemptionsOk, CodeFor, BenefitsOf,
         ReservationsOf, RedemptionsOf, Redeem, DiscountTotal, HasBenefit, HasReservation, Run;
    assert t.orders[|s.orders|].lines == OrderLinesOf(priced);
    NewRowsOnly(s, t, buyer, priced, i);
    RunRowsGrow(t, ops);
    EarlierRowsOnly(t, Run(t, ops), LineRef(|s.orders|, i));
    assert Run(t, ops).orders[|s.orders|] == t.orders[|s.orders|];
  }
}
