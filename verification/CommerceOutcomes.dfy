/** What the cart shows, and what filling it and ordering from it demand and write, in terms of the tables alone:
  the conditions and prices are written out here once more, independently of the functions that compute them. */
module CommerceOutcomes {
  import opened Wrappers
  import opened Sorting
  import opened Commerce
  import opened CommerceCarts
  import opened CommerceCheckout
  import opened CommerceOrders
  import opened CommercePromotions
  import CommerceReplays
  import CourseAccess

  // ----- Courses that are sold, and courses that are held

  /** A published, public course in good standing. */
  predicate OnOffer(s: Store, courseId: nat) {
    && courseId in s.access.courses
    && var c := s.access.courses[courseId];
       !c.deleted && c.status == CourseAccess.Published && c.isPublic && c.moderationClear
  }

  /** Its price is there and between 1 and the largest safe integer. */
  predicate Priced(s: Store, courseId: nat) {
    && courseId in s.access.courses
    && var price := s.access.courses[courseId].price; price.Some? && 1 <= price.value <= 9_007_199_254_740_991
  }

  predicate InVnd(s: Store, courseId: nat) {
    courseId in s.access.courses && s.access.courses[courseId].currency == "VND"
  }

  /** The buyer has an account, and a grant that opens the course for learning now. */
  predicate Held(s: Store, buyer: nat, courseId: nat, now: int) {
    && buyer in s.access.users && !s.access.users[buyer]
    && courseId in s.access.courses
    && (var c := s.access.courses[courseId];
        !c.deleted && c.moderationClear && (c.status == CourseAccess.Published || c.status == CourseAccess.Archived))
    && exists g <- s.access.grants ::
         && g.userId == buyer && g.courseId == courseId && g.active && g.source != CourseAccess.UnverifiedReceiptAccess && g.startsAt <= now
         && (g.endsAt.None? || now < g.endsAt.value || (g.graceEndsAt.Some? && now < g.graceEndsAt.value))
  }

  lemma OwnsIff(s: Store, buyer: nat, courseId: nat, now: int)
    ensures Owns(s, buyer, courseId, now) <==> Held(s, buyer, courseId, now)
  {
    CourseAccess.LearningIff(s.access, Some(CourseAccess.User(buyer, {CourseAccess.Student})), courseId, false, now);
    hide CourseAccess.Decide;
  }

  // ----- Filling the cart

  /** Adding succeeds exactly for a course on offer, at a price, in dong, not held, whose product is not archived; the
    first of these that fails is the one reported, and then nothing changes. */
  lemma AddSucceedsIff(s: Store, buyer: nat, courseId: nat, now: int)
    requires OneProductPerCourse(s.products)
    ensures var (t, r) := AddCourse(s, buyer, courseId, now);
            var archived := exists p <- s.products :: p.courseId == Some(courseId) && p.status == ArchivedProduct;
            && (r.Success? <==>
                OnOffer(s, courseId) && Priced(s, courseId) && InVnd(s, courseId) && !Held(s, buyer, courseId, now) && !archived)
            && (r == Failure(CourseNotFound) <==> courseId !in s.access.courses || s.access.courses[courseId].deleted)
            && (r == Failure(PaymentNotRequired) <==> OnOffer(s, courseId) && !Priced(s, courseId))
            && (r == Failure(UnsupportedCurrency) <==> OnOffer(s, courseId) && Priced(s, courseId) && !InVnd(s, courseId))
            && (r == Failure(AlreadyOwned) <==> OnOffer(s, courseId) && Priced(s, courseId) && InVnd(s, courseId) && Held(s, buyer, courseId, now))
            && (r.Failure? ==> t == s)
  {
    OwnsIff(s, buyer, courseId, now);
    ArchivedIff(s, courseId);
    hide Owns, Held, ActiveCart, WithLine, ProductOfCourse;
  }

  lemma ArchivedIff(s: Store, courseId: nat)
    requires OneProductPerCourse(s.products)
    ensures var k := ProductOfCourse(s.products, courseId);
            (k.Some? && s.products[k.value].status == ArchivedProduct)
            <==> exists p <- s.products :: p.courseId == Some(courseId) && p.status == ArchivedProduct
  {
    var k := ProductOfCourse(s.products, courseId);
    if p :| p in s.products && p.courseId == Some(courseId) {
      var i :| 0 <= i < |s.products| && s.products[i] == p;
      assert k.value == i;
    }
    if k.Some? {
      assert s.products[k.value] in s.products;
    }
  }

  /** The course's one product is on sale afterwards, sold by the instructor where it is new; the buyer has an active
    cart, in dong where it is new, and no other product or cart changes. */
  lemma AddWrites(s: Store, buyer: nat, courseId: nat, now: int)
    requires CartsOk(s) && AddCourse(s, buyer, courseId, now).1.Success?
    ensures var (t, r) := AddCourse(s, buyer, courseId, now);
            var k := r.value;
            && k < |t.products| && t.products[k].courseId == Some(courseId) && t.products[k].status == ActiveProduct
            && (k < |s.products| ==> t.products == s.products[k := s.products[k].(status := ActiveProduct)])
            && (k >= |s.products| ==>
                courseId in s.access.courses
                && t.products == s.products + [Product(Some(courseId), s.access.courses[courseId].instructor, ActiveProduct)])
            && (exists c <- t.carts :: c.active && c.buyer == buyer && c.currency == "VND" && exists l <- c.lines :: l.productId == k)
            && (forall i :: 0 <= i < |s.carts| && (!s.carts[i].active || s.carts[i].buyer != buyer) ==> i < |t.carts| && t.carts[i] == s.carts[i])
            && t == s.(products := t.products, carts := t.carts, nextLine := s.nextLine + 1)
  {
    EnsureProductFacts(s, courseId);
    var (t, r) := AddCourse(s, buyer, courseId, now);
    var k := ActiveCart(s.carts, buyer);
    var at := if k.Some? then k.value else |s.carts|;
    if k.Some? {
      assert CartOk(s.products, s.nextLine, s.carts[k.value]);
    }
    hide CartOk, CartsOk, OneProductPerCourse, Owns, PurchaseError, LineOk;
    LineIsIn(if k.Some? then s.carts[k.value].lines else [], s.nextLine, r.value);
    assert t.carts[at] in t.carts;
  }

  lemma LineIsIn(lines: seq<CartLine>, id: nat, productId: nat)
    ensures exists l <- WithLine(lines, id, productId) :: l.productId == productId
  {
    var after := WithLine(lines, id, productId);
    if HasProduct(lines, productId) {
      var i :| 0 <= i < |lines| && lines[i].productId == productId;
      assert after[i] in after;
    } else {
      assert after[|lines|] in after;
    }
  }

  /** Clearing leaves the buyer's active cart without lines, and every other cart as it was. */
  lemma ClearWrites(s: Store, buyer: nat)
    requires CartsOk(s)
    ensures var t := ClearCart(s, buyer);
            && |t.carts| == |s.carts| && t == s.(carts := t.carts)
            && forall i :: 0 <= i < |s.carts| ==>
                 t.carts[i] == if s.carts[i].active && s.carts[i].buyer == buyer then s.carts[i].(lines := []) else s.carts[i]
  {
    hide CartOk, OneProductPerCourse;
    var k := ActiveCart(s.carts, buyer);
    forall i | 0 <= i < |s.carts| && s.carts[i].active && s.carts[i].buyer == buyer ensures k == Some(i) {
      assert s.carts[i] in s.carts;
    }
  }

  // ----- The cart shown

  /** The course of the line's product. */
  predicate IsFor(s: Store, l: CartLine, courseId: nat) {
    l.productId < |s.products| && s.products[l.productId].courseId == Some(courseId)
  }

  /** The line's product is on sale and its course on offer. */
  predicate Offered(s: Store, l: CartLine, courseId: nat) {
    IsFor(s, l, courseId) && s.products[l.productId].status == ActiveProduct && OnOffer(s, courseId)
  }

  /** A line is shown as owned when its course is held; else as unavailable, free or foreign, in this order, when its
    product or course is not on sale, has no price, or is not in dong; else as available, at the price of the course. */
  lemma LineShown(s: Store, buyer: nat, now: int, l: CartLine, courseId: nat)
    requires IsFor(s, l, courseId)
    ensures var item := ProjectLine(s, buyer, now, l);
            && item.lineId == l.id && item.productId == l.productId
            && (item.availability == ItemOwned <==> Held(s, buyer, courseId, now))
            && (item.availability == ItemUnavailable <==> !Held(s, buyer, courseId, now) && !Offered(s, l, courseId))
            && (item.availability == ItemFree <==> !Held(s, buyer, courseId, now) && Offered(s, l, courseId) && !Priced(s, courseId))
            && (item.availability == ItemForeign <==>
                !Held(s, buyer, courseId, now) && Offered(s, l, courseId) && Priced(s, courseId) && !InVnd(s, courseId))
            && (item.availability == ItemAvailable <==>
                !Held(s, buyer, courseId, now) && Offered(s, l, courseId) && Priced(s, courseId) && InVnd(s, courseId))
            && (item.availability == ItemAvailable ==> Some(item.price) == s.access.courses[courseId].price)
  {
    OwnsIff(s, buyer, courseId, now);
    if Held(s, buyer, courseId, now) {
      assert courseId in s.access.courses;
    }
    hide Owns, Held;
  }

  /** What the lines that can be bought come to. */
  ghost function Worth(s: Store, buyer: nat, now: int, lines: seq<CartLine>): int {
    if lines == [] then 0
    else
      var l := lines[|lines| - 1];
      Worth(s, buyer, now, lines[..|lines| - 1]) + if Buyable(s, buyer, now, l) then PriceOf(s, l) else 0
  }

  ghost predicate Buyable(s: Store, buyer: nat, now: int, l: CartLine) {
    exists c :: IsFor(s, l, c) && !Held(s, buyer, c, now) && Offered(s, l, c) && Priced(s, c) && InVnd(s, c)
  }

  ghost function PriceOf(s: Store, l: CartLine): int {
    if l.productId < |s.products| && s.products[l.productId].courseId.Some? && s.products[l.productId].courseId.value in s.access.courses
       && s.access.courses[s.products[l.productId].courseId.value].price.Some?
    then s.access.courses[s.products[l.productId].courseId.value].price.value
    else 0
  }

  lemma BuyableIff(s: Store, buyer: nat, now: int, l: CartLine)
    ensures ProjectLine(s, buyer, now, l).availability == ItemAvailable <==> Buyable(s, buyer, now, l)
    ensures Buyable(s, buyer, now, l) ==> ProjectLine(s, buyer, now, l).price == PriceOf(s, l)
  {
    if l.productId < |s.products| && s.products[l.productId].courseId.Some? {
      LineShown(s, buyer, now, l, s.products[l.productId].courseId.value);
    }
    hide Held, Owns;
  }

  ghost predicate AllBuyable(s: Store, buyer: nat, now: int, lines: seq<CartLine>) {
    forall l <- lines :: Buyable(s, buyer, now, l)
  }

  predicate AllShown(items: seq<Item>) {
    forall i <- items :: i.availability == ItemAvailable
  }

  lemma AllOfLast(s: Store, buyer: nat, now: int, lines: seq<CartLine>, items: seq<Item>)
    requires lines != [] && |items| == |lines|
    ensures AllBuyable(s, buyer, now, lines) <==> AllBuyable(s, buyer, now, lines[..|lines| - 1]) && Buyable(s, buyer, now, lines[|lines| - 1])
    ensures AllShown(items) <==> AllShown(items[..|items| - 1]) && items[|items| - 1].availability == ItemAvailable
  {
    hide Buyable;
    var n := |lines| - 1;
    assert forall l :: l in lines <==> l in lines[..n] || l == lines[n];
    assert forall i :: i in items <==> i in items[..n] || i == items[n];
  }

  lemma {:induction false} TotalIsWorth(s: Store, buyer: nat, now: int, lines: seq<CartLine>)
    ensures AvailableTotal(ProjectLines(s, buyer, now, lines)) == Worth(s, buyer, now, lines)
    ensures AllShown(ProjectLines(s, buyer, now, lines)) <==> AllBuyable(s, buyer, now, lines)
  {
    hide ProjectLine, Buyable, PriceOf, AllBuyable, AllShown;
    if lines == [] {
      NothingToBuy(s, buyer, now);
    } else {
      var n := |lines| - 1;
      var items := ProjectLines(s, buyer, now, lines);
      TotalIsWorth(s, buyer, now, lines[..n]);
      ProjectLast(s, buyer, now, lines);
      AvailableLast(items);
      BuyableIff(s, buyer, now, lines[n]);
      AllOfLast(s, buyer, now, lines, items);
      assert items[..n] == ProjectLines(s, buyer, now, lines[..n]);
    }
  }

  lemma NothingToBuy(s: Store, buyer: nat, now: int)
    ensures AllShown([]) && AllBuyable(s, buyer, now, [])
  {
  }

  lemma {:induction false} ProjectLast(s: Store, buyer: nat, now: int, lines: seq<CartLine>)
    requires lines != []
    ensures ProjectLines(s, buyer, now, lines) == ProjectLines(s, buyer, now, lines[..|lines| - 1]) + [ProjectLine(s, buyer, now, lines[|lines| - 1])]
  {
    hide ProjectLine;
    if |lines| > 1 {
      ProjectLast(s, buyer, now, lines[1..]);
      assert lines[1..][..|lines| - 2] == lines[..|lines| - 1][1..];
    }
  }

  /** The cart's subtotal is what the lines that can be bought come to, and it is ready to check out exactly when it has
    lines and all of them can be bought. */
  lemma CartShown(s: Store, buyer: nat, now: int)
    ensures var view, lines := ProjectCart(s, buyer, now), ActiveLines(s, buyer);
            && |view.items| == |lines| && view.subtotal == Worth(s, buyer, now, lines)
            && (view.canCheckout <==> lines != [] && forall l <- lines :: Buyable(s, buyer, now, l))
  {
    TotalIsWorth(s, buyer, now, ActiveLines(s, buyer));
    hide ProjectLine, ProjectLines, AvailableTotal, Buyable;
  }
}
