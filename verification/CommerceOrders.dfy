/** What every run keeps of the orders: their amounts, and their ties to carts and idempotency records. */
module CommerceOrders {
  import opened Wrappers
  import opened Sorting
  import opened Commerce
  import opened CommerceCarts
  import opened CommerceCheckout
  import CourseAccess

  // ----- Amounts

  /** What voucher evaluation promises: never a negative discount, never more than the price. */
  ghost predicate Fair(evaluate: Evaluator) {
    forall courseId, code, price :: price > 0 && evaluate(courseId, code, price).Some? ==> 0 <= evaluate(courseId, code, price).value.discount <= price
  }

  function Subtotal(lines: seq<OrderLine>): int {
    if lines == [] then 0 else Subtotal(lines[..|lines| - 1]) + lines[|lines| - 1].listPrice
  }

  function Discounts(lines: seq<OrderLine>): int {
    if lines == [] then 0 else Discounts(lines[..|lines| - 1]) + lines[|lines| - 1].discount
  }

  function Finals(lines: seq<OrderLine>): int {
    if lines == [] then 0 else Finals(lines[..|lines| - 1]) + lines[|lines| - 1].finalPrice
  }

  predicate AmountsOk(o: Order) {
    && (forall l <- o.lines :: 0 < l.listPrice && 0 <= l.discount <= l.listPrice && l.finalPrice == l.listPrice - l.discount)
    && o.lines != []
    && o.subtotal == Subtotal(o.lines) && o.discount == Discounts(o.lines)
    && o.payable == o.subtotal - o.discount == Finals(o.lines)
    && 0 <= o.discount <= o.subtotal
    && (o.confirmed <==> o.payable == 0)
  }

  predicate PricedOk(priced: seq<PricedLine>) {
    forall i :: 0 <= i < |priced| ==>
      && 0 < priced[i].listPrice && 0 <= priced[i].discount <= priced[i].listPrice && priced[i].finalPrice == priced[i].listPrice - priced[i].discount
      && (priced[i].voucher.None? ==> priced[i].discount == 0)
  }

  lemma PricesAreOk(s: Store, currency: string, lines: seq<CartLine>, applications: seq<Application>, evaluate: Evaluator)
    requires Fair(evaluate) && PriceLines(s, currency, lines, applications, evaluate).Success?
    ensures var priced := PriceLines(s, currency, lines, applications, evaluate).value;
            |priced| == |lines| && PricedOk(priced)
  {
    PricedEach(s, currency, lines, applications, evaluate);
    hide PriceLines, Sellable, CodeFor;
    var priced := PriceLines(s, currency, lines, applications, evaluate).value;
    forall i | 0 <= i < |priced|
      ensures 0 < priced[i].listPrice && 0 <= priced[i].discount <= priced[i].listPrice && priced[i].finalPrice == priced[i].listPrice - priced[i].discount
      ensures priced[i].voucher.None? ==> priced[i].discount == 0
    {
      assert PriceLine(s, currency, lines[i], applications, evaluate) == Success(priced[i]);
    }
  }

  lemma {:induction false} TotalsOfLines(priced: seq<PricedLine>)
    requires PricedOk(priced)
    ensures Subtotal(OrderLinesOf(priced)) == ListTotal(priced) && Discounts(OrderLinesOf(priced)) == DiscountTotal(priced)
    ensures Finals(OrderLinesOf(priced)) == ListTotal(priced) - DiscountTotal(priced)
    ensures 0 <= DiscountTotal(priced) <= ListTotal(priced)
  {
    if priced != [] {
      var n := |priced| - 1;
      TotalsOfLines(priced[..n]);
      assert OrderLinesOf(priced)[..n] == OrderLinesOf(priced[..n]);
    }
  }

  /** The order an accepted checkout places has sound amounts, and is confirmed exactly when nothing is to be paid. */
  lemma PlacedAmounts(s: Store, buyer: nat, key: string, request: Request, cart: nat, selected: seq<CartLine>, priced: seq<PricedLine>)
    requires cart < |s.carts| && PricedOk(priced) && priced != []
    ensures AmountsOk(PlacedOrder(s, buyer, key, request, cart, selected, priced))
  {
    TotalsOfLines(priced);
    hide Select, Renumbered, BenefitsOf, ReservationsOf, RedemptionsOf, Redeem, ListTotal, DiscountTotal, Subtotal, Discounts, Finals;
    forall l <- OrderLinesOf(priced) ensures 0 < l.listPrice && 0 <= l.discount <= l.listPrice && l.finalPrice == l.listPrice - l.discount {
      var i :| 0 <= i < |priced| && OrderLinesOf(priced)[i] == l;
    }
  }

  function PlacedOrder(s: Store, buyer: nat, key: string, request: Request, cart: nat, selected: seq<CartLine>, priced: seq<PricedLine>): (r: Order)
    requires cart < |s.carts|
    ensures r.cart == cart && r.buyer == buyer && r.lines == OrderLinesOf(priced)
  {
    Place(s, buyer, key, request, cart, selected, priced).orders[|s.orders|]
  }

  ghost predicate OrdersOk(orders: seq<Order>) {
    forall o <- orders :: AmountsOk(o)
  }

  // ----- Orders and the carts they came from

  ghost predicate CameFrom(s: Store, o: Order) {
    && o.cart < |s.carts| && !s.carts[o.cart].active && s.carts[o.cart].buyer == o.buyer
    && ProductIds(s.carts[o.cart].lines) == OrderedIds(o.lines)
  }

  /** Orders and converted carts correspond one to one, line for line. */
  ghost predicate CartLinks(s: Store) {
    && (forall k :: 0 <= k < |s.orders| ==> CameFrom(s, s.orders[k]))
    && (forall j, k :: 0 <= j < k < |s.orders| ==> s.orders[j].cart != s.orders[k].cart)
    && forall i :: 0 <= i < |s.carts| && !s.carts[i].active ==> exists k :: 0 <= k < |s.orders| && s.orders[k].cart == i
  }

  /** Converted carts stay as they are, no cart is lost, and new carts are active. */
  ghost predicate CartsEvolve(s: Store, t: Store) {
    && |s.carts| <= |t.carts|
    && (forall i :: 0 <= i < |s.carts| ==> t.carts[i].active == s.carts[i].active && (!s.carts[i].active ==> t.carts[i] == s.carts[i]))
    && forall i :: |s.carts| <= i < |t.carts| ==> t.carts[i].active
  }

  /** Nothing of the order tables, and of the carts only active ones, is touched. */
  ghost predicate LeavesOrders(s: Store, t: Store) {
    && t.orders == s.orders && t.benefits == s.benefits && t.reservations == s.reservations && t.redemptions == s.redemptions
    && t.redeemed == s.redeemed && t.records == s.records && CartsEvolve(s, t)
  }

  lemma AddLeavesOrders(s: Store, buyer: nat, courseId: nat, now: int)
    ensures LeavesOrders(s, AddCourse(s, buyer, courseId, now).0)
  {
    hide PurchaseError, Owns, EnsureProduct, WithLine;
  }

  /** Everything but orders leaves the order tables alone. */
  lemma OtherSteps(s: Store, op: Op)
    requires !op.CreateOrderOp?
    ensures LeavesOrders(s, Step(s, op))
  {
    hide AddCourse, WithoutCourse;
    if op.AddCourseOp? {
      AddLeavesOrders(s, op.buyer, op.courseId, op.now);
    }
  }

  lemma EvolutionKeepsLinks(s: Store, t: Store)
    requires CartLinks(s) && t.orders == s.orders && CartsEvolve(s, t)
    ensures CartLinks(t)
  {
    hide ProductIds, OrderedIds;
    forall k | 0 <= k < |t.orders| ensures CameFrom(t, t.orders[k]) {
      assert CameFrom(s, s.orders[k]);
    }
  }

  lemma PlaceKeepsLinks(s: Store, buyer: nat, key: string, request: Request, cart: nat, selected: seq<CartLine>, priced: seq<PricedLine>)
    requires CartLinks(s) && ActiveCart(s.carts, buyer) == Some(cart)
    requires ProductIds(Select(s.carts[cart].lines, AmongIds(selected))) == OrderedIds(OrderLinesOf(priced))
    ensures CartLinks(Place(s, buyer, key, request, cart, selected, priced))
  {
    var t := Place(s, buyer, key, request, cart, selected, priced);
    PlacedRows(s, buyer, key, request, cart, selected, priced);
    assert t.carts[cart].buyer == buyer && forall i :: |s.carts| <= i < |t.carts| ==> t.carts[i].active;
    hide Place, ProductIds, OrderedIds, Select, OrderLinesOf, ActiveCart;
    forall k | 0 <= k < |s.orders| ensures t.orders[k] == s.orders[k] && t.orders[k].cart != cart && CameFrom(t, t.orders[k]) {
      assert t.orders[..|s.orders|][k] == s.orders[k];
      assert CameFrom(s, s.orders[k]);
    }
    assert t.orders[|s.orders|].cart == cart;
    forall i | 0 <= i < |t.carts| && !t.carts[i].active ensures exists k :: 0 <= k < |t.orders| && t.orders[k].cart == i {
      if i != cart {
        var k :| 0 <= k < |s.orders| && s.orders[k].cart == i;
        assert t.orders[k].cart == i;
      }
    }
  }

  // ----- Idempotency records

  predicate Recorded(records: map<(nat, string), Record>, order: nat) {
    exists a <- records :: records[a].order == order
  }

  /** Every record is completed and names one order of its buyer; every order has exactly one record. */
  ghost predicate RecordsOk(s: Store) {
    && (forall a <- s.records :: s.records[a].completed && s.records[a].order < |s.orders| && s.orders[s.records[a].order].buyer == a.0)
    && (forall a <- s.records, b <- s.records :: s.records[a].order == s.records[b].order ==> a == b)
    && forall k :: 0 <= k < |s.orders| ==> Recorded(s.records, k)
  }

  lemma NewRecordKeepsRecords(s: Store, t: Store, buyer: nat, key: string, request: Request)
    requires RecordsOk(s) && (buyer, key) !in s.records
    requires |t.orders| == |s.orders| + 1 && t.orders[..|s.orders|] == s.orders && t.orders[|s.orders|].buyer == buyer
    requires t.records == s.records[(buyer, key) := Record(request, true, |s.orders|)]
    ensures RecordsOk(t)
  {
    forall k | 0 <= k < |s.orders| ensures t.orders[k] == s.orders[k] {
      assert t.orders[..|s.orders|][k] == s.orders[k];
    }
    forall k | 0 <= k < |t.orders| ensures Recorded(t.records, k) {
      if k < |s.orders| {
        assert Recorded(s.records, k);
        var a :| a in s.records && s.records[a].order == k;
        assert t.records[a].order == k;
      } else {
        assert t.records[(buyer, key)].order == k;
      }
    }
  }

  // ----- Steps and runs

  ghost predicate OrderTablesOk(s: Store) {
    CartsOk(s) && OrdersOk(s.orders) && CartLinks(s) && RecordsOk(s)
  }

  lemma SelectionNonEmpty(s: Store, buyer: nat, cart: Cart, request: Request, now: int)
    requires CheckoutError(s, buyer, cart, request, now).None?
    ensures Select(cart.lines, SelectedBy(s, request.courses)) != []
  {
  }

  lemma PlacedRecord(s: Store, buyer: nat, key: string, request: Request, cart: nat, selected: seq<CartLine>, priced: seq<PricedLine>)
    requires cart < |s.carts|
    ensures Place(s, buyer, key, request, cart, selected, priced).records == s.records[(buyer, key) := Record(request, true, |s.orders|)]
  {
    hide Select, Renumbered, BenefitsOf, ReservationsOf, OrderLinesOf, RedemptionsOf, Redeem, ListTotal, DiscountTotal;
  }

  lemma OrderKeepsTables(s: Store, buyer: nat, key: string, courses: Option<seq<nat>>, applications: seq<Application>, evaluate: Evaluator, now: int)
    requires OrderTablesOk(s) && Fair(evaluate)
    ensures OrderTablesOk(CreateOrder(s, buyer, key, courses, applications, evaluate, now).0)
  {
    OrderKeepsCarts(s, buyer, key, courses, applications, evaluate, now);
    hide *;
    var (t, r) := CreateOrder(s, buyer, key, courses, applications, evaluate, now);
    if t == s {
    } else {
      RefusalChangesNothing(s, buyer, key, courses, applications, evaluate, now);
      var request, k, selected, priced := OrderUnfolds(s, buyer, key, courses, applications, evaluate, now);
      PlaceKeepsTables(s, buyer, key, request, k, selected, priced, evaluate, now);
      TablesTogether(s, t);
    }
  }

  lemma TablesTogether(s: Store, t: Store)
    ensures OrderTablesOk(s) ==> CartsOk(s) && OrdersOk(s.orders) && CartLinks(s) && RecordsOk(s)
    ensures CartsOk(t) && OrdersOk(t.orders) && CartLinks(t) && RecordsOk(t) ==> OrderTablesOk(t)
  {
    hide CartsOk, OrdersOk, CartLinks, RecordsOk;
  }

  lemma RefusalChangesNothing(s: Store, buyer: nat, key: string, courses: Option<seq<nat>>, applications: seq<Application>, evaluate: Evaluator, now: int)
    ensures var (t, r) := CreateOrder(s, buyer, key, courses, applications, evaluate, now);
            t == s || (r.Success? && (buyer, key) !in s.records)
  {
    hide Normalize, CheckoutError, PriceLines, Select, ActiveCart, ValidKey, SelectedBy, Place;
  }

  lemma PlaceKeepsTables(s: Store, buyer: nat, key: string, request: Request, cart: nat, selected: seq<CartLine>, priced: seq<PricedLine>, evaluate: Evaluator, now: int)
    requires OrderTablesOk(s) && Fair(evaluate) && (buyer, key) !in s.records
    requires ActiveCart(s.carts, buyer) == Some(cart) && CheckoutError(s, buyer, s.carts[cart], request, now).None?
    requires selected == Select(s.carts[cart].lines, SelectedBy(s, request.courses))
    requires PriceLines(s, s.carts[cart].currency, selected, request.applications, evaluate) == Success(priced)
    ensures var t := Place(s, buyer, key, request, cart, selected, priced);
            OrdersOk(t.orders) && CartLinks(t) && RecordsOk(t)
  {
    hide PriceLines, CheckoutError, Select, Place, AmountsOk, RecordsOk, CartLinks, CartOk;
    var t := Place(s, buyer, key, request, cart, selected, priced);
    PlacedRows(s, buyer, key, request, cart, selected, priced);
    PricesAreOk(s, s.carts[cart].currency, selected, request.applications, evaluate);
    SelectionNonEmpty(s, buyer, s.carts[cart], request, now);
    PlacedAmounts(s, buyer, key, request, cart, selected, priced);
    assert t.orders == s.orders + [PlacedOrder(s, buyer, key, request, cart, selected, priced)];
    assert CartOk(s.products, s.nextLine, s.carts[cart]);
    LinesDivided(s, s.carts[cart], SelectedBy(s, request.courses));
    PricedProducts(s, s.carts[cart].currency, selected, request.applications, evaluate);
    PlaceKeepsLinks(s, buyer, key, request, cart, selected, priced);
    PlacedRecord(s, buyer, key, request, cart, selected, priced);
    NewRecordKeepsRecords(s, t, buyer, key, request);
  }

  lemma StepKeepsTables(s: Store, op: Op)
    requires OrderTablesOk(s) && (op.CreateOrderOp? ==> Fair(op.evaluate))
    ensures OrderTablesOk(Step(s, op))
  {
    hide AddCourse, RemoveCourse, ClearCart, CreateOrder, OrdersOk, CartLinks, CartsOk, Recorded;
    if op.CreateOrderOp? {
      OrderKeepsTables(s, op.buyer, op.key, op.courses, op.applications, op.evaluate, op.now);
    } else {
      StepKeepsCarts(s, op);
      OtherSteps(s, op);
      EvolutionKeepsLinks(s, Step(s, op));
    }
  }

  ghost predicate FairRun(ops: seq<Op>) {
    forall op <- ops :: op.CreateOrderOp? ==> Fair(op.evaluate)
  }

  /** After any run every order's amounts add up and it is confirmed exactly when nothing is to be paid, orders and
    converted carts correspond, and every idempotency record is completed and names an order of its own. */
  lemma {:induction false} RunKeepsTables(s: Store, ops: seq<Op>)
    requires OrderTablesOk(s) && FairRun(ops)
    ensures OrderTablesOk(Run(s, ops))
    decreases |ops|
  {
    hide Step, OrderTablesOk, Fair;
    if ops != [] {
      assert ops[0] in ops && forall op <- ops[1..] :: op in ops;
      StepKeepsTables(s, ops[0]);
      RunKeepsTables(Step(s, ops[0]), ops[1..]);
    }
  }

  lemma EmptyTablesOk(access: CourseAccess.Store)
    ensures OrderTablesOk(Empty(access))
  {
  }
}
