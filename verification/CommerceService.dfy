/** The cart and order services, working on their tables step by step. */
module CommerceService {
  import opened Wrappers
  import opened Sorting
  import opened Commerce
  import CourseAccess

  lemma ReservationsFlip(order: nat, buyer: nat, lines: seq<PricedLine>)
    ensures |ReservationsOf(order, buyer, lines, false)| == |ReservationsOf(order, buyer, lines, true)| == |Select(lines, HasVoucher())|
    ensures forall j :: 0 <= j < |ReservationsOf(order, buyer, lines, false)| ==>
              ReservationsOf(order, buyer, lines, true)[j] == ReservationsOf(order, buyer, lines, false)[j].(consumed := true)
  {
    if lines != [] {
      var n := |lines| - 1;
      ReservationsFlip(order, buyer, lines[..n]);
      assert lines == lines[..n] + [lines[n]];
      SelectConcat(lines[..n], [lines[n]], HasVoucher());
    }
  }

  /** The first `j` of the new reservations have been consumed. */
  ghost predicate Flipped(now: seq<Reservation>, before: seq<Reservation>, on: seq<Reservation>, off: seq<Reservation>, j: nat) {
    |on| == |off| && j <= |on| && now == before + on[..j] + off[j..]
  }

  lemma FlipSteps(now: seq<Reservation>, before: seq<Reservation>, on: seq<Reservation>, off: seq<Reservation>, j: nat)
    requires |on| == |off| && forall i :: 0 <= i < |on| ==> on[i] == off[i].(consumed := true)
    ensures now == before + off ==> Flipped(now, before, on, off, 0)
    ensures Flipped(now, before, on, off, |on|) ==> now == before + on
    ensures j < |on| && Flipped(now, before, on, off, j) ==>
            && |before| + j < |now|
            && Flipped(now[|before| + j := now[|before| + j].(consumed := true)], before, on, off, j + 1)
  {
    assert on[..0] == [] && off[0..] == off && on[..|on|] == on && off[|on|..] == [];
    if j < |on| && Flipped(now, before, on, off, j) {
      assert now[|before| + j] == off[j];
      assert now[|before| + j := on[j]] == before + on[..j + 1] + off[j + 1..];
    }
  }

  lemma OneMoreUsed(buyer: nat, redeemed: map<nat, nat>, used: seq<PricedLine>, j: nat)
    requires j <= |used|
    ensures j == 0 ==> RedemptionsOf(buyer, used[..j]) == [] && Redeem(redeemed, used[..j]) == redeemed
    ensures j < |used| ==> RedemptionsOf(buyer, used[..j + 1]) == RedemptionsOf(buyer, used[..j]) + [RedemptionOf(buyer, used[j])]
    ensures j < |used| && used[j].voucher.Some? ==>
              Redeem(redeemed, used[..j + 1]) ==
              Redeem(redeemed, used[..j])[used[j].voucher.value.id := CountOf(Redeem(redeemed, used[..j]), used[j].voucher.value.id) + 1]
  {
    if j < |used| {
      assert used[..j + 1][..j] == used[..j];
    }
  }

  lemma Purchasable(s: Store, courseId: nat)
    ensures PurchaseError(s, courseId).None? ==> courseId in s.access.courses
  {
  }

  class CommerceServices {
    var access: CourseAccess.Store
    var products: seq<Product>
    var carts: seq<Cart>
    var nextLine: nat
    var orders: seq<Order>
    var benefits: seq<Benefit>
    var reservations: seq<Reservation>
    var redemptions: seq<Redemption>
    var redeemed: map<nat, nat>
    var records: map<(nat, string), Record>

    function State(): Store
      reads this
    {
      Store(access, products, carts, nextLine, orders, benefits, reservations, redemptions, redeemed, records)
    }

    constructor (access: CourseAccess.Store)
      ensures State() == Empty(access)
    {
      this.access := access;
      products, carts, nextLine, orders, benefits := [], [], 0, [], [];
      reservations, redemptions, redeemed, records := [], [], map[], map[];
    }

    method EnsureActiveCourseProduct(courseId: nat) returns (r: Result<nat, Error>)
      requires courseId in access.courses
      modifies this`products
      ensures (products, r) == EnsureProduct(old(State()), courseId)
    {
      var found := ProductOfCourse(products, courseId);
      var product;
      if found.None? {
        product := |products|;
        products := products + [Product(Some(courseId), access.courses[courseId].instructor, DraftProduct)];
      } else {
        product := found.value;
      }
      if products[product].status == ArchivedProduct {
        return Failure(CourseUnavailable);
      }
      if products[product].status == DraftProduct {
        products := products[product := products[product].(status := ActiveProduct)];
      }
      assert found.None? ==> products == old(products) + [Product(Some(courseId), access.courses[courseId].instructor, ActiveProduct)];
      assert found.Some? ==> products == old(products)[product := old(products)[product].(status := ActiveProduct)];
      r := Success(product);
    }

    method AddCourseToCart(buyer: nat, courseId: nat, now: int) returns (r: Result<nat, Error>)
      modifies this`products, this`carts, this`nextLine
      ensures (State(), r) == AddCourse(old(State()), buyer, courseId, now)
    {
      hide PurchaseError, Owns, ProductOfCourse;
      var error := PurchaseError(State(), courseId);
      if error.Some? {
        return Failure(error.value);
      }
      assert courseId in access.courses by {
        Purchasable(State(), courseId);
      }
      if Owns(State(), buyer, courseId, now) {
        return Failure(AlreadyOwned);
      }
      r := EnsureActiveCourseProduct(courseId);
      if r.Failure? {
        return;
      }
      var found := ActiveCart(carts, buyer);
      var k;
      if found.Some? {
        k := found.value;
      } else {
        k := |carts|;
        carts := carts + [Cart(buyer, true, CURRENCY, [])];
      }
      if HasProduct(carts[k].lines, r.value) {
        carts := carts[k := carts[k].(lines := SetToOne(carts[k].lines, r.value))];
      } else {
        carts := carts[k := carts[k].(lines := carts[k].lines + [CartLine(nextLine, r.value, 1)])];
      }
      nextLine := nextLine + 1;
    }

    method RemoveCourseFromCart(buyer: nat, courseId: nat)
      modifies this`carts
      ensures State() == RemoveCourse(old(State()), buyer, courseId)
    {
      var k := ActiveCart(carts, buyer);
      if k.Some? {
        carts := carts[k.value := carts[k.value].(lines := WithoutCourse(State(), carts[k.value].lines, courseId))];
      }
    }

    method ClearActiveCart(buyer: nat)
      modifies this`carts
      ensures State() == ClearCart(old(State()), buyer)
    {
      var k := ActiveCart(carts, buyer);
      if k.Some? {
        if carts[k.value].lines == [] {
          assert carts[k.value := carts[k.value].(lines := [])] == carts;
        } else {
          carts := carts[k.value := carts[k.value].(lines := [])];
        }
      }
    }

    method PriceCartLines(currency: string, lines: seq<CartLine>, applications: seq<Application>, evaluate: Evaluator) returns (r: Result<seq<PricedLine>, Error>)
      ensures r == PriceLines(State(), currency, lines, applications, evaluate)
    {
      hide PriceLine;
      var priced: seq<PricedLine> := [];
      for i := 0 to |lines|
        invariant PriceLines(State(), currency, lines[..i], applications, evaluate) == Success(priced)
      {
        assert lines[..i + 1][..i] == lines[..i];
        var line := PriceLine(State(), currency, lines[i], applications, evaluate);
        if line.Failure? {
          FailsEarly(State(), currency, lines, applications, evaluate, i + 1);
          return Failure(line.error);
        }
        priced := priced + [line.value];
      }
      assert lines[..|lines|] == lines;
      r := Success(priced);
    }

    /** One reservation consumed, one redemption recorded, one counter raised. */
    method RedeemReservation(buyer: nat, position: nat, line: PricedLine)
      requires position < |reservations| && line.voucher.Some?
      modifies this`reservations, this`redemptions, this`redeemed
      ensures reservations == old(reservations)[position := old(reservations)[position].(consumed := true)]
      ensures redemptions == old(redemptions) + [RedemptionOf(buyer, line)]
      ensures redeemed == old(redeemed)[line.voucher.value.id := CountOf(old(redeemed), line.voucher.value.id) + 1]
    {
      reservations := reservations[position := reservations[position].(consumed := true)];
      redemptions := redemptions + [Redemption(line.voucher.value.id, buyer, line.courseId, line.listPrice, line.discount, line.finalPrice)];
      redeemed := redeemed[line.voucher.value.id := CountOf(redeemed, line.voucher.value.id) + 1];
    }

    /** The loop over the reservation usages: `off` are the new reservations, `on` what they become. */
    method RedeemAll(buyer: nat, base: nat, ghost before: seq<Reservation>, ghost on: seq<Reservation>, ghost off: seq<Reservation>, used: seq<PricedLine>)
      requires base == |before| && reservations == before + off
      requires |on| == |off| == |used| && forall i :: 0 <= i < |on| ==> on[i] == off[i].(consumed := true)
      requires forall l <- used :: l.voucher.Some?
      modifies this`reservations, this`redemptions, this`redeemed
      ensures reservations == before + on
      ensures redemptions == old(redemptions) + RedemptionsOf(buyer, used)
      ensures redeemed == Redeem(old(redeemed), used)
    {
      hide *;
      FlipSteps(reservations, before, on, off, 0);
      OneMoreUsed(buyer, redeemed, used, 0);
      assert redemptions == redemptions + RedemptionsOf(buyer, used[..0]);
      for j := 0 to |used|
        invariant Flipped(reservations, before, on, off, j)
        invariant redemptions == old(redemptions) + RedemptionsOf(buyer, used[..j])
        invariant redeemed == Redeem(old(redeemed), used[..j])
      {
        OneMoreUsed(buyer, old(redeemed), used, j);
        FlipSteps(reservations, before, on, off, j);
        assert used[j] in used;
        RedeemReservation(buyer, base + j, used[j]);
      }
      FlipSteps(reservations, before, on, off, 0);
      assert used[..|used|] == used;
    }

    /** The status updates, redemptions and counter increments of an order that costs nothing. */
    method ConfirmZeroPayableOrder(buyer: nat, order: nat, ghost before: seq<Reservation>, base: nat, priced: seq<PricedLine>)
      requires order < |orders| && base == |before|
      requires reservations == before + ReservationsOf(order, buyer, priced, false)
      modifies this`orders, this`reservations, this`redemptions, this`redeemed
      ensures orders == old(orders)[order := old(orders)[order].(confirmed := true)]
      ensures reservations == before + ReservationsOf(order, buyer, priced, true)
      ensures redemptions == old(redemptions) + RedemptionsOf(buyer, Select(priced, HasVoucher()))
      ensures redeemed == Redeem(old(redeemed), Select(priced, HasVoucher()))
    {
      orders := orders[order := orders[order].(confirmed := true)];
      var used := Select(priced, HasVoucher());
      ReservationsFlip(order, buyer, priced);
      assert forall l <- used :: l.voucher.Some?;
      RedeemAll(buyer, base, before, ReservationsOf(order, buyer, priced, true), ReservationsOf(order, buyer, priced, false), used);
    }

    method CreateOrderTransaction(buyer: nat, key: string, courses: Option<seq<nat>>, applications: seq<Application>, evaluate: Evaluator, now: int)
      returns (r: Result<nat, Error>)
      modifies this
      ensures (State(), r) == CreateOrder(old(State()), buyer, key, courses, applications, evaluate, now)
    {
      hide Normalize, CheckoutError, PriceLines, Select;
      if !ValidKey(key) {
        return Failure(InvalidKey);
      }
      var normalized := Normalize(courses, applications);
      if normalized.Failure? {
        return Failure(normalized.error);
      }
      var request := normalized.value;
      if (buyer, key) in records {
        var existing := records[(buyer, key)];
        if existing.request != request {
          return Failure(KeyReused);
        }
        if !existing.completed {
          return Failure(RequestInProgress);
        }
        return Success(existing.order);
      }
      var found := ActiveCart(carts, buyer);
      if found.None? {
        return Failure(EmptyCart);
      }
      var cart := found.value;
      var error := CheckoutError(State(), buyer, carts[cart], request, now);
      if error.Some? {
        return Failure(error.value);
      }
      var selected := Select(carts[cart].lines, SelectedBy(State(), request.courses));
      var pricing := PriceCartLines(carts[cart].currency, selected, request.applications, evaluate);
      if pricing.Failure? {
        return Failure(pricing.error);
      }
      WriteOrder(buyer, key, request, cart, selected, pricing.value);
      r := Success(|orders| - 1);
    }

    /** The order's lines, with a reservation and a benefit for each line bought with a voucher. */
    method WriteOrderLines(buyer: nat, order: nat, priced: seq<PricedLine>) returns (subtotal: int, discount: int, lines: seq<OrderLine>)
      modifies this`reservations, this`benefits
      ensures subtotal == ListTotal(priced) && discount == DiscountTotal(priced) && lines == OrderLinesOf(priced)
      ensures reservations == old(reservations) + ReservationsOf(order, buyer, priced, false)
      ensures benefits == old(benefits) + BenefitsOf(order, priced)
    {
      subtotal, discount, lines := 0, 0, [];
      for i := 0 to |priced|
        invariant subtotal == ListTotal(priced[..i]) && discount == DiscountTotal(priced[..i])
        invariant lines == OrderLinesOf(priced[..i])
        invariant reservations == old(reservations) + ReservationsOf(order, buyer, priced[..i], false)
        invariant benefits == old(benefits) + BenefitsOf(order, priced[..i])
      {
        assert priced[..i + 1][..i] == priced[..i];
        var line := priced[i];
        subtotal, discount := subtotal + line.listPrice, discount + line.discount;
        lines := lines + [OrderLine(line.productId, line.courseId, line.seller, line.title, line.listPrice, line.discount, line.finalPrice)];
        if line.voucher.Some? {
          reservations := reservations + [Reservation(LineRef(order, i), buyer, line.voucher.value.id, false)];
          benefits := benefits + [Benefit(LineRef(order, i), line.voucher.value.id, line.voucher.value.sourceVersion, line.discount)];
        }
      }
      assert priced[..|priced|] == priced;
    }

    /** The active cart becomes the order's; what was not selected goes into a new active cart. */
    method ConvertCart(buyer: nat, cart: nat, selected: seq<CartLine>)
      requires cart < |carts|
      modifies this`carts, this`nextLine
      ensures var c := old(carts)[cart];
              var kept := Select(c.lines, NotAmong(selected));
              var converted := old(carts)[cart := c.(active := false, lines := Select(c.lines, AmongIds(selected)))];
              && carts == (if kept == [] then converted else converted + [Cart(buyer, true, c.currency, Renumbered(kept, old(nextLine)))])
              && nextLine == old(nextLine) + |kept|
    {
      hide Select;
      var kept := Select(carts[cart].lines, NotAmong(selected));
      var sold := carts[cart].(active := false, lines := Select(carts[cart].lines, AmongIds(selected)));
      if kept != [] {
        carts := carts + [Cart(buyer, true, carts[cart].currency, Renumbered(kept, nextLine))];
        nextLine := nextLine + |kept|;
      }
      carts := carts[cart := sold];
    }

    /** The rows of an accepted order. */
    method WriteOrder(buyer: nat, key: string, request: Request, cart: nat, selected: seq<CartLine>, priced: seq<PricedLine>)
      requires cart < |carts|
      modifies this
      ensures State() == Place(old(State()), buyer, key, request, cart, selected, priced)
      ensures |orders| == |old(orders)| + 1
    {
      hide Select, ReservationsOf, BenefitsOf, OrderLinesOf, ListTotal, DiscountTotal, RedemptionsOf, Redeem, Renumbered, HasVoucher, NotAmong, AmongIds;
      var order, base := |orders|, |reservations|;
      records := records[(buyer, key) := Record(request, false, order)];
      var subtotal, discount, lines := WriteOrderLines(buyer, order, priced);
      orders := orders + [Order(cart, buyer, subtotal, discount, subtotal - discount, false, lines)];
      ConvertCart(buyer, cart, selected);
      if subtotal - discount == 0 {
        ConfirmZeroPayableOrder(buyer, order, old(reservations), base, priced);
      }
      records := records[(buyer, key) := Record(request, true, order)];
      assert records == old(records)[(buyer, key) := Record(request, true, order)];
    }
  }

  lemma FailsEarly(s: Store, currency: string, lines: seq<CartLine>, applications: seq<Application>, evaluate: Evaluator, i: nat)
    requires i <= |lines| && PriceLines(s, currency, lines[..i], applications, evaluate).Failure?
    ensures PriceLines(s, currency, lines, applications, evaluate) == PriceLines(s, currency, lines[..i], applications, evaluate)
    decreases |lines|
  {
    hide PriceLine;
    if i < |lines| {
      var n := |lines| - 1;
      assert lines[..n][..i] == lines[..i];
      FailsEarly(s, currency, lines[..n], applications, evaluate, i);
    } else {
      assert lines[..i] == lines;
    }
  }
}
