/** When an order is accepted, and every price and row it writes, in terms of the request and the tables alone. */
module OrderOutcomes {
  import opened Wrappers
  import opened Sorting
  import opened Commerce
  import opened CommerceCarts
  import opened CommerceCheckout
  import opened CommerceOrders
  import opened CommercePromotions
  import opened CommerceOutcomes
  import CommerceReplays
  import CourseAccess

  // ----- The vouchers of a request

  /** The request applies this code, which is not blank, to the course. */
  predicate Applies(applications: seq<Application>, courseId: nat, code: string) {
    Application(courseId, code) in applications && code != ""
  }

  lemma {:induction false} CodeForIff(applications: seq<Application>, courseId: nat, code: string)
    requires DistinctTargets(applications)
    ensures CodeFor(applications, courseId) == Some(code) <==> Applies(applications, courseId, code)
  {
    if applications != [] {
      var n := |applications| - 1;
      CodeForIff(applications[..n], courseId, code);
      assert forall a :: a in applications <==> a in applications[..n] || a == applications[n];
    }
  }

  /** Sorting the applications changes neither their targets nor their codes. */
  lemma CodesOfRequest(courses: Option<seq<nat>>, applications: seq<Application>, courseId: nat, code: string)
    requires Normalize(courses, applications).Success?
    ensures CodeFor(Normalize(courses, applications).value.applications, courseId) == Some(code) <==> Applies(applications, courseId, code)
  {
    var sorted := Sort(applications, ByCourse);
    CommerceReplays.TargetsIgnoreOrder(applications, sorted);
    SortMembers(applications, ByCourse);
    CodeForIff(sorted, courseId, code);
  }

  lemma CodeOfRequest(courses: Option<seq<nat>>, applications: seq<Application>, courseId: nat)
    requires Normalize(courses, applications).Success?
    ensures var code := CodeFor(Normalize(courses, applications).value.applications, courseId);
            && (code.Some? ==> Applies(applications, courseId, code.value))
            && (forall c :: Applies(applications, courseId, c) ==> code == Some(c))
  {
    var request := Normalize(courses, applications).value;
    var code := CodeFor(request.applications, courseId);
    if code.Some? {
      CodesOfRequest(courses, applications, courseId, code.value);
    }
    forall c | Applies(applications, courseId, c) ensures code == Some(c) {
      CodesOfRequest(courses, applications, courseId, c);
    }
  }

  // ----- The price of a line

  /** An order line as the catalogue has it: the product, its seller, its course's title and its price, which is in dong. */
  predicate AsListed(s: Store, l: OrderLine) {
    && l.productId < |s.products| && s.products[l.productId].courseId == Some(l.courseId)
    && s.products[l.productId].status == ActiveProduct && l.seller == s.products[l.productId].seller
    && OnOffer(s, l.courseId) && Priced(s, l.courseId) && InVnd(s, l.courseId)
    && l.title == s.access.courses[l.courseId].title && Some(l.listPrice) == s.access.courses[l.courseId].price
  }

  lemma PricedAsListed(s: Store, line: CartLine, applications: seq<Application>, evaluate: Evaluator)
    requires PriceLine(s, CURRENCY, line, applications, evaluate).Success?
    ensures var p := PriceLine(s, CURRENCY, line, applications, evaluate).value;
            && AsListed(s, OrderLine(p.productId, p.courseId, p.seller, p.title, p.listPrice, p.discount, p.finalPrice))
            && p.productId == line.productId
            && p.voucher == (var code := CodeFor(applications, p.courseId); if code.Some? then evaluate(p.courseId, code.value, p.listPrice) else None)
            && (CodeFor(applications, p.courseId).Some? ==> p.voucher.Some?)
            && p.discount == (if p.voucher.Some? then p.voucher.value.discount else 0) && p.finalPrice == p.listPrice - p.discount
  {
    hide CodeFor;
  }

  /** Pricing accepts a line exactly when it can be sold in dong and every code applied to its course is accepted. */
  lemma PricingIff(s: Store, line: CartLine, courseId: nat, applications: seq<Application>, evaluate: Evaluator)
    requires IsFor(s, line, courseId)
    ensures PriceLine(s, CURRENCY, line, applications, evaluate).Success? <==>
            && Offered(s, line, courseId) && Priced(s, courseId) && InVnd(s, courseId)
            && (CodeFor(applications, courseId).Some? ==>
                evaluate(courseId, CodeFor(applications, courseId).value, PriceOf(s, line)).Some?)
  {
    hide CodeFor;
  }

  /** What the voucher `v` of line `i` of an order writes. */
  ghost predicate VoucherRows(t: Store, buyer: nat, order: nat, i: nat, v: Voucher)
    requires order < |t.orders| && i < |t.orders[order].lines|
  {
    && Benefit(LineRef(order, i), v.id, v.sourceVersion, v.discount) in t.benefits
    && Reservation(LineRef(order, i), buyer, v.id, t.orders[order].confirmed) in t.reservations
    && (t.orders[order].confirmed ==>
        var l := t.orders[order].lines[i]; Redemption(v.id, buyer, l.courseId, l.listPrice, v.discount, l.listPrice - v.discount) in t.redemptions)
  }

  ghost predicate NoRows(t: Store, order: nat, i: nat) {
    && (forall b <- t.benefits :: b.ref != LineRef(order, i))
    && (forall r <- t.reservations :: r.ref != LineRef(order, i))
  }

  lemma {:induction false} BenefitWritten(order: nat, priced: seq<PricedLine>, i: nat)
    requires i < |priced| && priced[i].voucher.Some?
    ensures Benefit(LineRef(order, i), priced[i].voucher.value.id, priced[i].voucher.value.sourceVersion, priced[i].discount) in BenefitsOf(order, priced)
  {
    if i < |priced| - 1 {
      BenefitWritten(order, priced[..|priced| - 1], i);
    }
  }

  lemma {:induction false} ReservationWritten(order: nat, buyer: nat, priced: seq<PricedLine>, on: bool, i: nat)
    requires i < |priced| && priced[i].voucher.Some?
    ensures Reservation(LineRef(order, i), buyer, priced[i].voucher.value.id, on) in ReservationsOf(order, buyer, priced, on)
  {
    if i < |priced| - 1 {
      ReservationWritten(order, buyer, priced[..|priced| - 1], on, i);
    }
  }

  lemma RedemptionWritten(buyer: nat, used: seq<PricedLine>, l: PricedLine)
    requires l in used && l.voucher.Some?
    ensures Redemption(l.voucher.value.id, buyer, l.courseId, l.listPrice, l.discount, l.finalPrice) in RedemptionsOf(buyer, used)
  {
    var i :| 0 <= i < |used| && used[i] == l;
    assert RedemptionsOf(buyer, used)[i] in RedemptionsOf(buyer, used);
  }

  lemma VoucherRowsWritten(s: Store, t: Store, buyer: nat, priced: seq<PricedLine>, i: nat)
    requires AddsOrder(s, t, buyer, priced) && i < |priced| && priced[i].voucher.Some?
    requires priced[i].finalPrice == priced[i].listPrice - priced[i].discount && priced[i].discount == priced[i].voucher.value.discount
    ensures VoucherRows(t, buyer, |s.orders|, i, priced[i].voucher.value)
  {
    var order := |s.orders|;
    var used := Select(priced, HasVoucher());
    assert priced[i] in used;
    BenefitWritten(order, priced, i);
    ReservationWritten(order, buyer, priced, t.orders[order].confirmed, i);
    RedemptionWritten(buyer, used, priced[i]);
    LineFields(priced, i);
    hide BenefitsOf, ReservationsOf, RedemptionsOf, Redeem, DiscountTotal, Select, OrderLinesOf;
  }

  lemma RowsWritten(s: Store, t: Store, buyer: nat, priced: seq<PricedLine>, i: nat)
    requires PromotionsOk(s.orders, s.benefits, s.reservations) && AddsOrder(s, t, buyer, priced) && i < |priced|
    requires priced[i].finalPrice == priced[i].listPrice - priced[i].discount
    requires priced[i].voucher.Some? ==> priced[i].discount == priced[i].voucher.value.discount
    ensures |t.orders| == |s.orders| + 1 && |t.orders[|s.orders|].lines| == |priced|
    ensures priced[i].voucher.Some? ==> VoucherRows(t, buyer, |s.orders|, i, priced[i].voucher.value)
    ensures priced[i].voucher.None? ==> NoRows(t, |s.orders|, i)
  {
    NewRowsOnly(s, t, buyer, priced, i);
    hide BenefitsOf, ReservationsOf, RedemptionsOf, Redeem, DiscountTotal, Select, PromotionsOk, OrderLinesOf;
    if priced[i].voucher.Some? {
      VoucherRowsWritten(s, t, buyer, priced, i);
    }
  }

  /** Each line of a newly accepted order is listed and priced as the catalogue has it.  A code applied to its course was
    accepted for that price, and takes off what its evaluation says; its benefit, its reservation and, once confirmed, its
    redemption name that voucher.  Where no code is applied the line costs the list price and has no such rows. */
  lemma OrderPrices(s: Store, buyer: nat, key: string, courses: Option<seq<nat>>, applications: seq<Application>, evaluate: Evaluator, now: int, i: nat)
    requires CartsOk(s) && PromotionsOk(s.orders, s.benefits, s.reservations) && (buyer, key) !in s.records
    requires CreateOrder(s, buyer, key, courses, applications, evaluate, now).1.Success?
    requires var t := CreateOrder(s, buyer, key, courses, applications, evaluate, now).0; |s.orders| < |t.orders| && i < |t.orders[|s.orders|].lines|
    ensures var t := CreateOrder(s, buyer, key, courses, applications, evaluate, now).0;
            var l := t.orders[|s.orders|].lines[i];
            && AsListed(s, l)
            && (forall code :: Applies(applications, l.courseId, code) ==>
                  && evaluate(l.courseId, code, l.listPrice).Some?
                  && var v := evaluate(l.courseId, code, l.listPrice).value;
                     l.discount == v.discount && l.finalPrice == l.listPrice - v.discount && VoucherRows(t, buyer, |s.orders|, i, v))
            && ((forall code :: !Applies(applications, l.courseId, code)) ==>
                l.discount == 0 && l.finalPrice == l.listPrice && NoRows(t, |s.orders|, i))
  {
    var request, k, selected, priced := OrderUnfolds(s, buyer, key, courses, applications, evaluate, now);
    assert CartOk(s.products, s.nextLine, s.carts[k]);
    PricedEach(s, CURRENCY, selected, request.applications, evaluate);
    PlaceAddsOrder(s, buyer, key, request, k, selected, priced);
    var t := CreateOrder(s, buyer, key, courses, applications, evaluate, now).0;
    assert t.orders[|s.orders|].lines == OrderLinesOf(priced) && t.orders[|s.orders|].buyer == buyer;
    assert PriceLine(s, CURRENCY, selected[i], request.applications, evaluate) == Success(priced[i]);
    PricedAsListed(s, selected[i], request.applications, evaluate);
    CodeOfRequest(courses, applications, priced[i].courseId);
    hide *;
    RowsWritten(s, t, buyer, priced, i);
    LineFields(priced, i);
  }

  lemma LineFields(priced: seq<PricedLine>, i: nat)
    requires i < |priced|
    ensures |OrderLinesOf(priced)| == |priced|
    ensures OrderLinesOf(priced)[i] == OrderLine(priced[i].productId, priced[i].courseId, priced[i].seller, priced[i].title,
                                                 priced[i].listPrice, priced[i].discount, priced[i].finalPrice)
  {
  }

  // ----- When an order is accepted

  predicate KeyOk(key: string) {
    && 8 <= |key| <= 128
    && forall i :: 0 <= i < |key| ==>
         'A' <= key[i] <= 'Z' || 'a' <= key[i] <= 'z' || '0' <= key[i] <= '9' || key[i] == '.' || key[i] == '_' || key[i] == ':' || key[i] == '-'
  }

  lemma KeyOkIff(key: string)
    ensures ValidKey(key) <==> KeyOk(key)
  {
    forall c: char ensures c in "._:-" <==> c == '.' || c == '_' || c == ':' || c == '-' {
    }
    if KeyOk(key) {
      forall c <- key ensures KeyCharacter(c) {
      }
    }
    if ValidKey(key) {
      forall i | 0 <= i < |key| ensures KeyCharacter(key[i]) {
      }
    }
  }

  /** From 1 to 20 different courses when courses are named, and at most one code for a course. */
  predicate PayloadOk(courses: Option<seq<nat>>, applications: seq<Application>) {
    && (courses.Some? ==> 1 <= |courses.value| <= 20 && forall i, j :: 0 <= i < j < |courses.value| ==> courses.value[i] != courses.value[j])
    && forall i, j :: 0 <= i < j < |applications| ==> applications[i].courseId != applications[j].courseId
  }

  lemma PayloadOkIff(courses: Option<seq<nat>>, applications: seq<Application>)
    ensures Normalize(courses, applications).Success? <==> PayloadOk(courses, applications)
  {
    hide Sort;
  }

  /** A line for this course, among those asked for. */
  predicate Wanted(s: Store, courses: Option<seq<nat>>, l: CartLine, c: nat) {
    IsFor(s, l, c) && (courses.Some? ==> c in courses.value)
  }

  /** Every course named is in the cart; some line is wanted; every code is for a wanted course; no wanted course is held. */
  ghost predicate Orderable(s: Store, buyer: nat, lines: seq<CartLine>, courses: Option<seq<nat>>, applications: seq<Application>, now: int) {
    && (courses.Some? ==> forall c <- courses.value :: exists l <- lines :: IsFor(s, l, c))
    && (exists l <- lines, c: nat :: Wanted(s, courses, l, c))
    && (forall a <- applications :: exists l <- lines :: Wanted(s, courses, l, a.courseId))
    && (forall l <- lines, c: nat :: Wanted(s, courses, l, c) ==> !Held(s, buyer, c, now))
  }

  /** Every wanted line can be sold in dong, and every code applied to its course is accepted for its price. */
  ghost predicate Affordable(s: Store, lines: seq<CartLine>, courses: Option<seq<nat>>, applications: seq<Application>, evaluate: Evaluator) {
    forall l <- lines, c: nat :: Wanted(s, courses, l, c) ==>
      && Offered(s, l, c) && Priced(s, c) && InVnd(s, c)
      && forall code :: Applies(applications, c, code) ==> evaluate(c, code, PriceOf(s, l)).Some?
  }

  lemma SelectedIffWanted(s: Store, courses: Option<seq<nat>>, request: Request, l: CartLine)
    requires request.courses.Some? == courses.Some?
    requires courses.Some? ==> forall c :: c in request.courses.value <==> c in courses.value
    ensures SelectedBy(s, request.courses)(l) <==> exists c: nat :: Wanted(s, courses, l, c)
    ensures forall c: nat :: Wanted(s, courses, l, c) <==> SelectedBy(s, request.courses)(l) && CourseIdOf(s, l) == Some(c)
  {
    if SelectedBy(s, request.courses)(l) {
      assert Wanted(s, courses, l, CourseIdOf(s, l).value);
    }
  }

  lemma RequestMembers(courses: Option<seq<nat>>, applications: seq<Application>)
    requires Normalize(courses, applications).Success?
    ensures var request := Normalize(courses, applications).value;
            && request.courses.Some? == courses.Some?
            && (courses.Some? ==> forall c :: c in request.courses.value <==> c in courses.value)
            && forall a :: a in request.applications <==> a in applications
  {
    if courses.Some? {
      SortMembers(courses.value, AtMost);
    }
    SortMembers(applications, ByCourse);
  }

  lemma InCartIff(s: Store, lines: seq<CartLine>, courseId: nat)
    ensures InCart(s, lines, courseId) <==> exists l <- lines :: IsFor(s, l, courseId)
  {
    if InCart(s, lines, courseId) {
      var l :| l in lines && CourseIdOf(s, l) == Some(courseId);
      assert IsFor(s, l, courseId);
    }
    if l :| l in lines && IsFor(s, l, courseId) {
      assert CourseIdOf(s, l) == Some(courseId);
    }
  }

  /** The lines selected are the wanted ones. */
  lemma SelectedLines(s: Store, lines: seq<CartLine>, courses: Option<seq<nat>>, applications: seq<Application>)
    requires Normalize(courses, applications).Success?
    ensures var selected := Select(lines, SelectedBy(s, Normalize(courses, applications).value.courses));
            && (forall l :: l in selected <==> l in lines && exists c: nat :: Wanted(s, courses, l, c))
            && forall l, c: nat :: Wanted(s, courses, l, c) ==> CourseIdOf(s, l) == Some(c)
  {
    var request := Normalize(courses, applications).value;
    RequestMembers(courses, applications);
    forall l ensures SelectedBy(s, request.courses)(l) <==> exists c: nat :: Wanted(s, courses, l, c) {
      SelectedIffWanted(s, courses, request, l);
    }
  }

  lemma NamedIff(s: Store, lines: seq<CartLine>, courses: Option<seq<nat>>, applications: seq<Application>)
    requires Normalize(courses, applications).Success?
    ensures var request := Normalize(courses, applications).value;
            (request.courses.Some? ==> forall c <- request.courses.value :: InCart(s, lines, c))
            <==> (courses.Some? ==> forall c <- courses.value :: exists l <- lines :: IsFor(s, l, c))
  {
    RequestMembers(courses, applications);
    forall c: nat ensures InCart(s, lines, c) <==> exists l <- lines :: IsFor(s, l, c) {
      InCartIff(s, lines, c);
    }
    hide InCart, IsFor, Normalize;
  }

  lemma SomethingIff(s: Store, lines: seq<CartLine>, courses: Option<seq<nat>>, applications: seq<Application>)
    requires Normalize(courses, applications).Success?
    ensures Select(lines, SelectedBy(s, Normalize(courses, applications).value.courses)) != [] <==> exists l <- lines, c: nat :: Wanted(s, courses, l, c)
  {
    SelectedLines(s, lines, courses, applications);
    var selected := Select(lines, SelectedBy(s, Normalize(courses, applications).value.courses));
    assert selected != [] ==> selected[0] in selected;
    hide *;
  }

  lemma NotHeldIff(s: Store, buyer: nat, lines: seq<CartLine>, courses: Option<seq<nat>>, applications: seq<Application>, now: int)
    requires Normalize(courses, applications).Success?
    ensures var selected := Select(lines, SelectedBy(s, Normalize(courses, applications).value.courses));
            (forall l <- selected :: CourseIdOf(s, l).Some? ==> !Owns(s, buyer, CourseIdOf(s, l).value, now))
            <==> forall l <- lines, c: nat :: Wanted(s, courses, l, c) ==> !Held(s, buyer, c, now)
  {
    SelectedLines(s, lines, courses, applications);
    forall c: nat ensures Owns(s, buyer, c, now) <==> Held(s, buyer, c, now) {
      OwnsIff(s, buyer, c, now);
    }
    hide *;
  }

  lemma TargetsIff(s: Store, lines: seq<CartLine>, courses: Option<seq<nat>>, applications: seq<Application>)
    requires Normalize(courses, applications).Success?
    ensures var request := Normalize(courses, applications).value;
            var selected := Select(lines, SelectedBy(s, request.courses));
            (forall a <- request.applications :: InCart(s, selected, a.courseId))
            <==> forall a <- applications :: exists l <- lines :: Wanted(s, courses, l, a.courseId)
  {
    SelectedLines(s, lines, courses, applications);
    RequestMembers(courses, applications);
    var selected := Select(lines, SelectedBy(s, Normalize(courses, applications).value.courses));
    hide Select, SelectedBy, Normalize, Wanted, CourseIdOf;
    forall c: nat ensures InCart(s, selected, c) <==> exists l <- lines :: Wanted(s, courses, l, c) {
    }
    hide InCart;
  }

  lemma NoErrorIff(s: Store, buyer: nat, cart: Cart, courses: Option<seq<nat>>, applications: seq<Application>, now: int)
    requires Normalize(courses, applications).Success?
    ensures CheckoutError(s, buyer, cart, Normalize(courses, applications).value, now).None?
       <==> Orderable(s, buyer, cart.lines, courses, applications, now)
  {
    var request := Normalize(courses, applications).value;
    NamedIff(s, cart.lines, courses, applications);
    SomethingIff(s, cart.lines, courses, applications);
    NotHeldIff(s, buyer, cart.lines, courses, applications, now);
    TargetsIff(s, cart.lines, courses, applications);
    hide Select, SelectedBy, CourseIdOf, Owns, Held, InCart, Wanted, IsFor, Normalize, CheckoutError;
    ErrorTells(s, buyer, cart, request, now, Select(cart.lines, SelectedBy(s, request.courses)));
  }

  lemma ErrorTells(s: Store, buyer: nat, cart: Cart, request: Request, now: int, selected: seq<CartLine>)
    requires selected == Select(cart.lines, SelectedBy(s, request.courses))
    ensures CheckoutError(s, buyer, cart, request, now).None? <==>
            && (request.courses.Some? ==> forall c <- request.courses.value :: InCart(s, cart.lines, c))
            && selected != []
            && (forall l <- selected :: CourseIdOf(s, l).Some? ==> !Owns(s, buyer, CourseIdOf(s, l).value, now))
            && (forall a <- request.applications :: InCart(s, selected, a.courseId))
  {
    hide Owns;
    if selected != [] {
      assert selected[0] in cart.lines;
    }
  }

  lemma LineAffordable(s: Store, l: CartLine, c: nat, courses: Option<seq<nat>>, applications: seq<Application>, evaluate: Evaluator)
    requires Normalize(courses, applications).Success? && IsFor(s, l, c)
    ensures PriceLine(s, CURRENCY, l, Normalize(courses, applications).value.applications, evaluate).Success? <==>
            && Offered(s, l, c) && Priced(s, c) && InVnd(s, c)
            && forall code :: Applies(applications, c, code) ==> evaluate(c, code, PriceOf(s, l)).Some?
  {
    var request := Normalize(courses, applications).value;
    PricingIff(s, l, c, request.applications, evaluate);
    CodeOfRequest(courses, applications, c);
    hide *;
  }

  lemma PricesIff(s: Store, lines: seq<CartLine>, courses: Option<seq<nat>>, applications: seq<Application>, evaluate: Evaluator)
    requires Normalize(courses, applications).Success?
    ensures var request := Normalize(courses, applications).value;
            PriceLines(s, CURRENCY, Select(lines, SelectedBy(s, request.courses)), request.applications, evaluate).Success?
            <==> Affordable(s, lines, courses, applications, evaluate)
  {
    var request := Normalize(courses, applications).value;
    var selected := Select(lines, SelectedBy(s, request.courses));
    PricedIff(s, CURRENCY, selected, request.applications, evaluate);
    RequestMembers(courses, applications);
    forall l ensures SelectedBy(s, request.courses)(l) <==> exists c: nat :: Wanted(s, courses, l, c) {
      SelectedIffWanted(s, courses, request, l);
    }
    hide PriceLines, PriceLine, Normalize, Offered, Priced, InVnd, Applies, PriceOf, SelectedBy;
    forall l, c: nat | Wanted(s, courses, l, c)
      ensures PriceLine(s, CURRENCY, l, request.applications, evaluate).Success? <==>
              && Offered(s, l, c) && Priced(s, c) && InVnd(s, c)
              && forall code :: Applies(applications, c, code) ==> evaluate(c, code, PriceOf(s, l)).Some?
    {
      LineAffordable(s, l, c, courses, applications, evaluate);
    }
    hide Wanted;
  }

  lemma NewOrderUnfolds(s: Store, buyer: nat, key: string, courses: Option<seq<nat>>, applications: seq<Application>, evaluate: Evaluator, now: int)
    requires (buyer, key) !in s.records && ValidKey(key) && Normalize(courses, applications).Success?
    ensures CreateOrder(s, buyer, key, courses, applications, evaluate, now).1.Success? <==>
            var request, k := Normalize(courses, applications).value, ActiveCart(s.carts, buyer);
            && k.Some? && CheckoutError(s, buyer, s.carts[k.value], request, now).None?
            && PriceLines(s, s.carts[k.value].currency, Select(s.carts[k.value].lines, SelectedBy(s, request.courses)),
                          request.applications, evaluate).Success?
  {
    hide Normalize, CheckoutError, PriceLines, Select, ActiveCart, ValidKey, SelectedBy, Place;
  }

  /** The buyer's active cart. */
  predicate CartOf(s: Store, buyer: nat, k: nat) {
    k < |s.carts| && s.carts[k].active && s.carts[k].buyer == buyer
  }

  lemma OneCart(s: Store, buyer: nat)
    requires OneActiveCart(s.carts)
    ensures forall k: nat :: CartOf(s, buyer, k) <==> ActiveCart(s.carts, buyer) == Some(k)
  {
    var k := ActiveCart(s.carts, buyer);
    forall j: nat | CartOf(s, buyer, j) ensures k == Some(j) {
      assert s.carts[j] in s.carts;
    }
  }

  /** What the buyer's active cart has to be. */
  ghost predicate CartMeets(s: Store, buyer: nat, k: nat, courses: Option<seq<nat>>, applications: seq<Application>, evaluate: Evaluator, now: int) {
    && CartOf(s, buyer, k) && Orderable(s, buyer, s.carts[k].lines, courses, applications, now)
    && Affordable(s, s.carts[k].lines, courses, applications, evaluate)
  }

  lemma CartMeetsIff(s: Store, buyer: nat, k: nat, courses: Option<seq<nat>>, applications: seq<Application>, evaluate: Evaluator, now: int)
    requires Normalize(courses, applications).Success? && CartOf(s, buyer, k) && s.carts[k].currency == CURRENCY
    ensures CartMeets(s, buyer, k, courses, applications, evaluate, now) <==>
            var request := Normalize(courses, applications).value;
            && CheckoutError(s, buyer, s.carts[k], request, now).None?
            && PriceLines(s, s.carts[k].currency, Select(s.carts[k].lines, SelectedBy(s, request.courses)), request.applications, evaluate).Success?
  {
    NoErrorIff(s, buyer, s.carts[k], courses, applications, now);
    PricesIff(s, s.carts[k].lines, courses, applications, evaluate);
    hide CheckoutError, PriceLines, Orderable, Affordable, Normalize, SelectedBy, Select;
  }

  lemma NewOrderIff(s: Store, buyer: nat, key: string, courses: Option<seq<nat>>, applications: seq<Application>, evaluate: Evaluator, now: int)
    requires CartsOk(s) && (buyer, key) !in s.records && ValidKey(key) && Normalize(courses, applications).Success?
    ensures CreateOrder(s, buyer, key, courses, applications, evaluate, now).1.Success? <==>
            exists k: nat :: CartMeets(s, buyer, k, courses, applications, evaluate, now)
  {
    NewOrderUnfolds(s, buyer, key, courses, applications, evaluate, now);
    OneCart(s, buyer);
    forall k: nat | CartMeets(s, buyer, k, courses, applications, evaluate, now) ensures CartOf(s, buyer, k) {
    }
    var k := ActiveCart(s.carts, buyer);
    if k.Some? {
      assert CartOk(s.products, s.nextLine, s.carts[k.value]);
      assert CartOf(s, buyer, k.value);
      CartMeetsIff(s, buyer, k.value, courses, applications, evaluate, now);
    }
    hide *;
  }

  /** An order is accepted exactly for a usable key and payload which either are on record as a completed request, or are
    new while the buyer's active cart has what is asked for, none of it held, all of it for sale in dong, and every code is
    accepted for its price. */
  lemma OrderAcceptedIff(s: Store, buyer: nat, key: string, courses: Option<seq<nat>>, applications: seq<Application>, evaluate: Evaluator, now: int)
    requires CartsOk(s)
    ensures CreateOrder(s, buyer, key, courses, applications, evaluate, now).1.Success? <==>
            && KeyOk(key) && PayloadOk(courses, applications)
            && if (buyer, key) in s.records
               then s.records[(buyer, key)].completed && Normalize(courses, applications) == Success(s.records[(buyer, key)].request)
               else exists k: nat :: CartMeets(s, buyer, k, courses, applications, evaluate, now)
  {
    KeyOkIff(key);
    PayloadOkIff(courses, applications);
    if ValidKey(key) && Normalize(courses, applications).Success? && (buyer, key) !in s.records {
      NewOrderIff(s, buyer, key, courses, applications, evaluate, now);
      hide *;
    } else {
      hide ValidKey, KeyOk, Normalize, PayloadOk, CheckoutError, PriceLines, CartMeets, CartsOk;
    }
  }

  /** A newly accepted order takes the products of the lines wanted, which are all lines when no courses are named, and of
    no others. */
  lemma OrderTakesWanted(s: Store, buyer: nat, key: string, courses: Option<seq<nat>>, applications: seq<Application>, evaluate: Evaluator, now: int, k: nat)
    requires CartsOk(s) && (buyer, key) !in s.records && CartOf(s, buyer, k)
    requires CreateOrder(s, buyer, key, courses, applications, evaluate, now).1.Success?
    ensures var t := CreateOrder(s, buyer, key, courses, applications, evaluate, now).0;
            && |t.orders| == |s.orders| + 1
            && (forall p: nat :: p in OrderedIds(t.orders[|s.orders|].lines) <==>
                  exists l <- s.carts[k].lines, c: nat :: l.productId == p && Wanted(s, courses, l, c))
            && (courses.None? ==> OrderedIds(t.orders[|s.orders|].lines) == ProductIds(s.carts[k].lines) && ActiveLines(t, buyer) == [])
  {
    var request, cart, selected, priced := OrderUnfolds(s, buyer, key, courses, applications, evaluate, now);
    ActiveIsThatCart(s, buyer, k);
    RequestMembers(courses, applications);
    forall l ensures SelectedBy(s, request.courses)(l) <==> exists c: nat :: Wanted(s, courses, l, c) {
      SelectedIffWanted(s, courses, request, l);
    }
    PricedProducts(s, s.carts[k].currency, selected, request.applications, evaluate);
    PlacedRows(s, buyer, key, request, k, selected, priced);
    ActiveAfterPlace(s, buyer, key, request, k, selected, priced);
    assert CartOk(s.products, s.nextLine, s.carts[k]);
    if courses.None? {
      WholeCartSelectsAll(s, s.carts[k]);
      NothingKept(s.carts[k].lines);
    }
    assert forall l :: l in selected <==> l in s.carts[k].lines && SelectedBy(s, request.courses)(l);
    hide CreateOrder, Place, Select, PriceLines, SelectedBy, CartsOk, CartOk, Wanted, Normalize, CheckoutError, OrderLinesOf;
    IdsOfLines(selected);
  }

  lemma IdsOfLines(lines: seq<CartLine>)
    ensures forall p: nat :: p in ProductIds(lines) <==> exists l <- lines :: l.productId == p
  {
    forall l <- lines ensures l.productId in ProductIds(lines) {
      var i :| 0 <= i < |lines| && lines[i] == l;
      assert ProductIds(lines)[i] == l.productId;
    }
  }

  lemma {:induction false} SelectNone<T(!new)>(s: seq<T>, p: T -> bool)
    requires forall x <- s :: !p(x)
    ensures Select(s, p) == []
  {
    if s != [] {
      assert s[0] in s && forall x <- s[1..] :: x in s;
      SelectNone(s[1..], p);
    }
  }

  lemma NothingKept(lines: seq<CartLine>)
    ensures Select(lines, NotAmong(lines)) == []
  {
    SelectNone(lines, NotAmong(lines));
  }
}
