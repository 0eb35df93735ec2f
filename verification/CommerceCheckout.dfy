/** One checkout: where the cart's lines go, and when the cart that was shown can be ordered. */
module CommerceCheckout {
  import opened Wrappers
  import opened Sorting
  import opened Commerce
  import opened CommerceCarts

  // ----- Pricing, line by line

  lemma {:induction false} PricedEach(s: Store, currency: string, lines: seq<CartLine>, applications: seq<Application>, evaluate: Evaluator)
    requires PriceLines(s, currency, lines, applications, evaluate).Success?
    ensures var priced := PriceLines(s, currency, lines, applications, evaluate).value;
            && |priced| == |lines|
            && forall i :: 0 <= i < |lines| ==> PriceLine(s, currency, lines[i], applications, evaluate) == Success(priced[i])
  {
    hide PriceLine;
    if lines != [] {
      PricedEach(s, currency, lines[..|lines| - 1], applications, evaluate);
    }
  }

  /** Pricing succeeds exactly when it succeeds on every line. */
  lemma {:induction false} PricedIff(s: Store, currency: string, lines: seq<CartLine>, applications: seq<Application>, evaluate: Evaluator)
    ensures PriceLines(s, currency, lines, applications, evaluate).Success?
       <==> forall l <- lines :: PriceLine(s, currency, l, applications, evaluate).Success?
  {
    hide PriceLine;
    if lines != [] {
      var n := |lines| - 1;
      PricedIff(s, currency, lines[..n], applications, evaluate);
      assert forall l :: l in lines <==> l in lines[..n] || l == lines[n];
    }
  }

  // ----- Conservation of the cart

  function ProductIds(lines: seq<CartLine>): (r: seq<nat>)
    ensures |r| == |lines| && forall i :: 0 <= i < |r| ==> r[i] == lines[i].productId
  {
    seq(|lines|, i requires 0 <= i < |lines| => lines[i].productId)
  }

  function OrderedIds(lines: seq<OrderLine>): (r: seq<nat>)
    ensures |r| == |lines| && forall i :: 0 <= i < |r| ==> r[i] == lines[i].productId
  {
    seq(|lines|, i requires 0 <= i < |lines| => lines[i].productId)
  }

  lemma IdsCons(lines: seq<CartLine>)
    requires lines != []
    ensures ProductIds(lines) == [lines[0].productId] + ProductIds(lines[1..])
    ensures multiset(ProductIds(lines)) == multiset{lines[0].productId} + multiset(ProductIds(lines[1..]))
  {
    assert ProductIds(lines) == [lines[0].productId] + ProductIds(lines[1..]);
  }

  lemma {:induction false} IdsSplit(lines: seq<CartLine>, p: CartLine -> bool, q: CartLine -> bool)
    requires forall l <- lines :: p(l) <==> !q(l)
    ensures multiset(ProductIds(lines)) == multiset(ProductIds(Select(lines, p))) + multiset(ProductIds(Select(lines, q)))
  {
    if lines != [] {
      var rest := lines[1..];
      assert forall l <- rest :: l in lines;
      IdsSplit(rest, p, q);
      IdsCons(lines);
      assert lines[0] in lines;
      var chosen := if p(lines[0]) then Select(lines, p) else Select(lines, q);
      assert chosen[1..] == if p(lines[0]) then Select(rest, p) else Select(rest, q);
      hide ProductIds;
      IdsCons(chosen);
    }
  }

  /** Comparing line ids with those selected is the same as not being selected. */
  lemma KeptAreUnselected(lines: seq<CartLine>, p: CartLine -> bool)
    requires LinesDistinct(lines)
    ensures forall l <- lines :: p(l) <==> !NotAmong(Select(lines, p))(l)
  {
    forall l <- lines ensures p(l) <==> !NotAmong(Select(lines, p))(l) {
      if !p(l) {
        forall x <- Select(lines, p) ensures x.id != l.id {
          var i, j :| 0 <= i < |lines| && 0 <= j < |lines| && lines[i] == l && lines[j] == x;
        }
      }
    }
  }

  lemma {:induction false} SelectSame<T(!new)>(s: seq<T>, p: T -> bool, q: T -> bool)
    requires forall x <- s :: p(x) <==> q(x)
    ensures Select(s, p) == Select(s, q)
  {
    if s != [] {
      assert forall x <- s[1..] :: x in s;
      assert s[0] in s;
      SelectSame(s[1..], p, q);
    }
  }

  function ActiveLines(s: Store, buyer: nat): seq<CartLine> {
    var k := ActiveCart(s.carts, buyer);
    if k.None? then [] else s.carts[k.value].lines
  }

  lemma PricedProducts(s: Store, currency: string, lines: seq<CartLine>, applications: seq<Application>, evaluate: Evaluator)
    requires PriceLines(s, currency, lines, applications, evaluate).Success?
    ensures OrderedIds(OrderLinesOf(PriceLines(s, currency, lines, applications, evaluate).value)) == ProductIds(lines)
    ensures forall i :: 0 <= i < |lines| ==> CourseIdOf(s, lines[i]) == Some(PriceLines(s, currency, lines, applications, evaluate).value[i].courseId)
  {
    PricedEach(s, currency, lines, applications, evaluate);
    hide PriceLines;
    forall i | 0 <= i < |lines|
      ensures var priced := PriceLines(s, currency, lines, applications, evaluate).value;
              priced[i].productId == lines[i].productId && CourseIdOf(s, lines[i]) == Some(priced[i].courseId)
    {
      assert PriceLine(s, currency, lines[i], applications, evaluate).Success?;
    }
  }

  /** The active cart after an order: the unselected lines, numbered anew. */
  lemma ActiveAfterPlace(s: Store, buyer: nat, key: string, request: Request, cart: nat, selected: seq<CartLine>, priced: seq<PricedLine>)
    requires CartsOk(s) && ActiveCart(s.carts, buyer) == Some(cart)
    ensures ActiveLines(Place(s, buyer, key, request, cart, selected, priced), buyer)
         == Renumbered(Select(s.carts[cart].lines, NotAmong(selected)), s.nextLine)
  {
    PlaceKeepsCarts(s, buyer, key, request, cart, selected, priced);
    hide CartOk, OneProductPerCourse, Renumbered, Select, BenefitsOf, ReservationsOf, OrderLinesOf, RedemptionsOf, Redeem, ListTotal, DiscountTotal;
    var t := Place(s, buyer, key, request, cart, selected, priced);
    var kept := Select(s.carts[cart].lines, NotAmong(selected));
    if kept == [] {
      assert |t.carts| == |s.carts|;
      NoActiveCart(s, t, buyer, cart);
      assert Renumbered(kept, s.nextLine) == [];
    } else {
      assert ActiveCart(t.carts, buyer) == Some(|s.carts|);
    }
  }

  lemma NoActiveCart(s: Store, t: Store, buyer: nat, cart: nat)
    requires CartsOk(s) && cart < |s.carts| && s.carts[cart].active && s.carts[cart].buyer == buyer
    requires |t.carts| == |s.carts| && !t.carts[cart].active && forall i :: 0 <= i < |s.carts| && i != cart ==> t.carts[i] == s.carts[i]
    ensures ActiveCart(t.carts, buyer).None?
  {
    hide CartOk, OneProductPerCourse;
  }

  /** What a newly accepted order went through. */
  lemma OrderUnfolds(s: Store, buyer: nat, key: string, courses: Option<seq<nat>>, applications: seq<Application>, evaluate: Evaluator, now: int)
    returns (request: Request, cart: nat, selected: seq<CartLine>, priced: seq<PricedLine>)
    requires (buyer, key) !in s.records && CreateOrder(s, buyer, key, courses, applications, evaluate, now).1.Success?
    ensures Normalize(courses, applications) == Success(request)
    ensures ActiveCart(s.carts, buyer) == Some(cart) && CheckoutError(s, buyer, s.carts[cart], request, now).None?
    ensures selected == Select(s.carts[cart].lines, SelectedBy(s, request.courses))
    ensures PriceLines(s, s.carts[cart].currency, selected, request.applications, evaluate) == Success(priced)
    ensures CreateOrder(s, buyer, key, courses, applications, evaluate, now)
         == (Place(s, buyer, key, request, cart, selected, priced), Success(|s.orders|))
  {
    hide Normalize, CheckoutError, PriceLines, Select, ActiveCart, ValidKey, SelectedBy, Place;
    request := Normalize(courses, applications).value;
    cart := ActiveCart(s.carts, buyer).value;
    selected := Select(s.carts[cart].lines, SelectedBy(s, request.courses));
    priced := PriceLines(s, s.carts[cart].currency, selected, request.applications, evaluate).value;
  }

  /** Where the lines of a cart go. */
  lemma LinesDivided(s: Store, cart: Cart, p: CartLine -> bool)
    requires CartOk(s.products, s.nextLine, cart)
    ensures var selected := Select(cart.lines, p);
            var next := Renumbered(Select(cart.lines, NotAmong(selected)), s.nextLine);
            && multiset(ProductIds(cart.lines)) == multiset(ProductIds(selected)) + multiset(ProductIds(next))
            && Select(cart.lines, AmongIds(selected)) == selected
            && forall l <- next :: l.quantity == 1
  {
    var selected := Select(cart.lines, p);
    KeptAreUnselected(cart.lines, p);
    IdsSplit(cart.lines, p, NotAmong(selected));
    SelectSame(cart.lines, AmongIds(selected), p);
    var kept := Select(cart.lines, NotAmong(selected));
    var next := Renumbered(kept, s.nextLine);
    assert ProductIds(next) == ProductIds(kept);
    forall l <- next ensures l.quantity == 1 {
      var i :| 0 <= i < |next| && next[i] == l;
      assert kept[i] in cart.lines;
    }
  }

  /** An accepted order takes from the buyer's active cart exactly the lines for the chosen courses (all of them when
    none are named); the others are the lines of the buyer's next active cart, each still once; no line is lost or
    doubled, the old cart stays with the ordered lines, and no other cart is touched. */
  lemma CheckoutConservesCart(s: Store, buyer: nat, key: string, courses: Option<seq<nat>>, applications: seq<Application>, evaluate: Evaluator, now: int)
    requires CartsOk(s) && (buyer, key) !in s.records
    requires CreateOrder(s, buyer, key, courses, applications, evaluate, now).1.Success?
    ensures var (t, r) := CreateOrder(s, buyer, key, courses, applications, evaluate, now);
            var k := ActiveCart(s.carts, buyer);
            && k.Some? && r.value == |s.orders| && |t.orders| == |s.orders| + 1 && t.orders[..|s.orders|] == s.orders
            && t.orders[r.value].cart == k.value && t.orders[r.value].buyer == buyer
            && |s.carts| <= |t.carts|
            && multiset(ProductIds(s.carts[k.value].lines))
               == multiset(OrderedIds(t.orders[r.value].lines)) + multiset(ProductIds(ActiveLines(t, buyer)))
            && ProductIds(t.carts[k.value].lines) == OrderedIds(t.orders[r.value].lines) && !t.carts[k.value].active
            && (forall l <- ActiveLines(t, buyer) :: l.quantity == 1)
            && forall i :: 0 <= i < |s.carts| && i != k.value ==> t.carts[i] == s.carts[i]
  {
    var request, k, selected, priced := OrderUnfolds(s, buyer, key, courses, applications, evaluate, now);
    PricedProducts(s, s.carts[k].currency, selected, request.applications, evaluate);
    ActiveAfterPlace(s, buyer, key, request, k, selected, priced);
    assert CartOk(s.products, s.nextLine, s.carts[k]);
    LinesDivided(s, s.carts[k], SelectedBy(s, request.courses));
    hide *;
    PlacedRows(s, buyer, key, request, k, selected, priced);
  }

  lemma PlacedRows(s: Store, buyer: nat, key: string, request: Request, cart: nat, selected: seq<CartLine>, priced: seq<PricedLine>)
    requires cart < |s.carts|
    ensures var t := Place(s, buyer, key, request, cart, selected, priced);
            && |t.orders| == |s.orders| + 1 && t.orders[..|s.orders|] == s.orders
            && t.orders[|s.orders|].cart == cart && t.orders[|s.orders|].buyer == buyer && t.orders[|s.orders|].lines == OrderLinesOf(priced)
            && |s.carts| <= |t.carts|
            && t.carts[cart].lines == Select(s.carts[cart].lines, AmongIds(selected)) && !t.carts[cart].active
            && forall i :: 0 <= i < |s.carts| && i != cart ==> t.carts[i] == s.carts[i]
  {
    hide Select, Renumbered, BenefitsOf, ReservationsOf, OrderLinesOf, RedemptionsOf, Redeem, ListTotal, DiscountTotal;
  }

  /** The courses ordered are the courses named in the request. */
  lemma OrdersWhatWasNamed(s: Store, buyer: nat, key: string, named: seq<nat>, applications: seq<Application>, evaluate: Evaluator, now: int)
    requires (buyer, key) !in s.records
    requires CreateOrder(s, buyer, key, Some(named), applications, evaluate, now).1.Success?
    ensures var (t, r) := CreateOrder(s, buyer, key, Some(named), applications, evaluate, now);
            && r.value < |t.orders|
            && forall c :: c in named <==> exists l <- t.orders[r.value].lines :: l.courseId == c
  {
    var request, k, selected, priced := OrderUnfolds(s, buyer, key, Some(named), applications, evaluate, now);
    PricedProducts(s, s.carts[k].currency, selected, request.applications, evaluate);
    hide *;
    PlacedRows(s, buyer, key, request, k, selected, priced);
    NamedSorted(named, applications, request);
    NamedAreInCart(s, buyer, s.carts[k], request, now);
    NamedAreOrdered(s, s.carts[k].lines, request.courses.value, priced);
  }

  lemma NamedSorted(named: seq<nat>, applications: seq<Application>, request: Request)
    requires Normalize(Some(named), applications) == Success(request)
    ensures request.courses.Some? && forall c :: c in request.courses.value <==> c in named
  {
    SortMembers(named, AtMost);
  }

  lemma NamedAreInCart(s: Store, buyer: nat, cart: Cart, request: Request, now: int)
    requires CheckoutError(s, buyer, cart, request, now).None? && request.courses.Some?
    ensures forall c <- request.courses.value :: InCart(s, cart.lines, c)
  {
    hide Select, Owns, InCart;
  }

  lemma NamedAreOrdered(s: Store, lines: seq<CartLine>, named: seq<nat>, priced: seq<PricedLine>)
    requires forall c <- named :: InCart(s, lines, c)
    requires var selected := Select(lines, SelectedBy(s, Some(named)));
             |selected| == |priced| && forall i :: 0 <= i < |selected| ==> CourseIdOf(s, selected[i]) == Some(priced[i].courseId)
    ensures forall c :: c in named <==> exists l <- OrderLinesOf(priced) :: l.courseId == c
  {
    var p := SelectedBy(s, Some(named));
    var selected, ordered := Select(lines, p), OrderLinesOf(priced);
    hide Select;
    forall c ensures c in named <==> exists l <- ordered :: l.courseId == c {
      if c in named {
        assert InCart(s, lines, c);
        var l :| l in lines && CourseIdOf(s, l) == Some(c);
        assert p(l) && l in selected;
        var i :| 0 <= i < |selected| && selected[i] == l;
        assert ordered[i] in ordered && ordered[i].courseId == c;
      }
      if l :| l in ordered && l.courseId == c {
        var i :| 0 <= i < |ordered| && ordered[i] == l;
        assert selected[i] in selected && p(selected[i]);
      }
    }
  }

  // ----- Filling and emptying the cart

  lemma LinesOfCourse(s: Store, lines: seq<CartLine>, product: nat, courseId: nat)
    requires OneProductPerCourse(s.products) && product < |s.products| && s.products[product].courseId == Some(courseId)
    ensures HasProduct(lines, product) <==> InCart(s, lines, courseId)
  {
    if InCart(s, lines, courseId) {
      var l :| l in lines && CourseIdOf(s, l) == Some(courseId);
      assert l.productId == product;
    }
  }

  /** The buyer's lines before, and after adding a course: the same if the course was in the cart, one more if not. */
  lemma AddedOnce(s: Store, buyer: nat, courseId: nat, now: int)
    requires CartsOk(s) && AddCourse(s, buyer, courseId, now).1.Success?
    ensures var (t, r) := AddCourse(s, buyer, courseId, now);
            && ActiveLines(t, buyer) == ActiveLines(s, buyer)
                 + (if InCart(s, ActiveLines(s, buyer), courseId) then [] else [CartLine(s.nextLine, r.value, 1)])
            && r.value < |t.products| && t.products[r.value].courseId == Some(courseId)
            && forall l <- ActiveLines(s, buyer) :: CourseIdOf(t, l) == CourseIdOf(s, l)
  {
    AddKeepsCarts(s, buyer, courseId, now);
    EnsureProductFacts(s, courseId);
    var (t, r) := AddCourse(s, buyer, courseId, now);
    var lines := ActiveLines(s, buyer);
    var k := ActiveCart(s.carts, buyer);
    var at := if k.Some? then k.value else |s.carts|;
    if k.Some? {
      assert CartOk(s.products, s.nextLine, s.carts[k.value]);
    }
    hide EnsureProduct, CartOk, CartsOk, OneActiveCart, Owns, PurchaseError;
    assert forall l <- lines :: LineOk(s.products, s.nextLine, l);
    LinesOfCourse(t, lines, r.value, courseId);
    assert InCart(t, lines, courseId) <==> InCart(s, lines, courseId);
    assert t.carts[at].lines == WithLine(lines, s.nextLine, r.value) && t.carts[at].active && t.carts[at].buyer == buyer;
    ActiveIsThatCart(t, buyer, at);
    if HasProduct(lines, r.value) {
      assert SetToOne(lines, r.value) == lines;
    }
  }

  lemma ActiveIsThatCart(s: Store, buyer: nat, at: nat)
    requires CartsOk(s) && at < |s.carts| && s.carts[at].active && s.carts[at].buyer == buyer
    ensures ActiveCart(s.carts, buyer) == Some(at)
  {
    hide CartOk, OneProductPerCourse;
    assert s.carts[at] in s.carts;
    var k := ActiveCart(s.carts, buyer);
  }

  /** Removing a course takes out exactly the lines for it, and taking out what was just added restores the cart. */
  lemma RemovedExactly(s: Store, buyer: nat, courseId: nat)
    requires CartsOk(s)
    ensures ActiveLines(RemoveCourse(s, buyer, courseId), buyer) == Select(ActiveLines(s, buyer), OtherCourse(s, courseId))
  {
    RemoveKeepsCarts(s, buyer, courseId);
    var k := ActiveCart(s.carts, buyer);
    if k.Some? {
      assert CartOk(s.products, s.nextLine, s.carts[k.value]);
      RemovesTheCourse(s, s.carts[k.value].lines, courseId);
      ActiveIsThatCart(RemoveCourse(s, buyer, courseId), buyer, k.value);
    }
    hide Select, WithoutCourse, CartsOk, CartOk;
  }

  lemma RemoveUndoesAdd(s: Store, buyer: nat, courseId: nat, now: int)
    requires CartsOk(s) && AddCourse(s, buyer, courseId, now).1.Success? && !InCart(s, ActiveLines(s, buyer), courseId)
    ensures var t := AddCourse(s, buyer, courseId, now).0;
            ActiveLines(RemoveCourse(t, buyer, courseId), buyer) == ActiveLines(s, buyer)
  {
    AddedOnce(s, buyer, courseId, now);
    AddKeepsCarts(s, buyer, courseId, now);
    var (t, r) := AddCourse(s, buyer, courseId, now);
    var lines, line := ActiveLines(s, buyer), CartLine(s.nextLine, r.value, 1);
    RemovedExactly(t, buyer, courseId);
    hide AddCourse, RemoveCourse, ActiveLines, CartsOk;
    var p := OtherCourse(t, courseId);
    forall l <- lines ensures p(l) {
      assert CourseIdOf(s, l) != Some(courseId);
    }
    SelectAll(lines, p);
    assert !p(line) && [line][1..] == [];
    SelectConcat(lines, [line], p);
    assert Select([line], p) == [];
  }

  // ----- The shown cart and the order agree

  lemma OwnedNeedsCourse(s: Store, buyer: nat, courseId: nat, now: int)
    requires courseId !in s.access.courses
    ensures !Owns(s, buyer, courseId, now)
  {
  }

  /** A line is shown as available exactly when it is not owned and pricing accepts it. */
  lemma LineAgrees(s: Store, buyer: nat, now: int, l: CartLine, evaluate: Evaluator)
    requires LineOk(s.products, s.nextLine, l)
    ensures var item := ProjectLine(s, buyer, now, l);
            var priced := PriceLine(s, CURRENCY, l, [], evaluate);
            && CourseIdOf(s, l).Some?
            && (item.availability == ItemAvailable <==> !Owns(s, buyer, CourseIdOf(s, l).value, now) && priced.Success?)
            && (priced.Success? ==> priced.value.listPrice == item.price && priced.value.discount == 0)
  {
    var courseId := CourseIdOf(s, l).value;
    if courseId !in s.access.courses {
      OwnedNeedsCourse(s, buyer, courseId, now);
    }
    hide Owns;
  }

  lemma {:induction false} ProjectedEach(s: Store, buyer: nat, now: int, lines: seq<CartLine>, i: nat)
    requires i < |lines|
    ensures ProjectLines(s, buyer, now, lines)[i] == ProjectLine(s, buyer, now, lines[i])
  {
    hide ProjectLine;
    if i > 0 {
      ProjectedEach(s, buyer, now, lines[1..], i - 1);
    }
  }

  lemma {:induction false} TotalsAgree(items: seq<Item>, priced: seq<PricedLine>)
    requires |items| == |priced| && forall i :: 0 <= i < |items| ==> items[i].availability == ItemAvailable && items[i].price == priced[i].listPrice
    ensures AvailableTotal(items) == ListTotal(priced)
  {
    if items != [] {
      var n := |items| - 1;
      TotalsAgree(items[..n], priced[..n]);
      AvailableLast(items);
    }
  }

  lemma {:induction false} AvailableLast(items: seq<Item>)
    requires items != []
    ensures AvailableTotal(items) == AvailableTotal(items[..|items| - 1]) + AvailableTotal([items[|items| - 1]])
  {
    var n := |items| - 1;
    if n == 0 {
      assert items == [items[0]];
    } else {
      AvailableLast(items[1..]);
      assert items[1..][..n - 1] == items[..n][1..];
      assert items[1..][n - 1] == items[n];
    }
  }

  ghost predicate AllAvailable(s: Store, buyer: nat, now: int, lines: seq<CartLine>) {
    forall l <- lines :: ProjectLine(s, buyer, now, l).availability == ItemAvailable
  }

  lemma CanCheckoutMeaning(s: Store, buyer: nat, now: int)
    ensures var k := ActiveCart(s.carts, buyer);
            ProjectCart(s, buyer, now).canCheckout
            <==> k.Some? && s.carts[k.value].lines != [] && AllAvailable(s, buyer, now, s.carts[k.value].lines)
  {
    var k := ActiveCart(s.carts, buyer);
    if k.Some? {
      var lines := s.carts[k.value].lines;
      var items := ProjectLines(s, buyer, now, lines);
      forall i | 0 <= i < |lines| ensures items[i] == ProjectLine(s, buyer, now, lines[i]) {
        ProjectedEach(s, buyer, now, lines, i);
      }
      hide ProjectLine, ProjectLines;
      assert forall i :: 0 <= i < |lines| ==> items[i] in items && lines[i] in lines;
    }
  }

  /** Ordering the whole cart, with no vouchers and under a new key. */
  function WholeCart(s: Store, buyer: nat, key: string, evaluate: Evaluator, now: int): (Store, Result<nat, Error>) {
    CreateOrder(s, buyer, key, None, [], evaluate, now)
  }

  lemma WholeCartSelectsAll(s: Store, cart: Cart)
    requires CartOk(s.products, s.nextLine, cart)
    ensures Select(cart.lines, SelectedBy(s, None)) == cart.lines
  {
    assert forall l <- cart.lines :: SelectedBy(s, None)(l);
    SelectAll(cart.lines, SelectedBy(s, None));
  }

  lemma WholeCartAccepted(s: Store, buyer: nat, key: string, evaluate: Evaluator, now: int)
    requires CartsOk(s) && ValidKey(key) && (buyer, key) !in s.records
    ensures var k := ActiveCart(s.carts, buyer);
            WholeCart(s, buyer, key, evaluate, now).1.Success?
            <==> k.Some? && s.carts[k.value].lines != []
                 && (forall l <- s.carts[k.value].lines :: !(CourseIdOf(s, l).Some? && Owns(s, buyer, CourseIdOf(s, l).value, now)))
                 && PriceLines(s, CURRENCY, s.carts[k.value].lines, [], evaluate).Success?
  {
    assert Normalize(None, []) == Success(Request(None, []));
    var k := ActiveCart(s.carts, buyer);
    if k.Some? {
      assert CartOk(s.products, s.nextLine, s.carts[k.value]);
      WholeCartSelectsAll(s, s.carts[k.value]);
      hide Select, ActiveCart, PriceLines, Owns, SelectedBy;
    }
  }

  lemma WholeCartSubtotal(s: Store, buyer: nat, key: string, evaluate: Evaluator, now: int)
    requires CartsOk(s) && (buyer, key) !in s.records && WholeCart(s, buyer, key, evaluate, now).1.Success?
    ensures var (t, r) := WholeCart(s, buyer, key, evaluate, now);
            var priced := PriceLines(s, CURRENCY, ActiveLines(s, buyer), [], evaluate);
            && r.value < |t.orders| && priced.Success?
            && t.orders[r.value].subtotal == ListTotal(priced.value) && t.orders[r.value].discount == DiscountTotal(priced.value)
            && t.orders[r.value].payable == ListTotal(priced.value) - DiscountTotal(priced.value)
  {
    assert Normalize(None, []) == Success(Request(None, []));
    var k := ActiveCart(s.carts, buyer).value;
    assert CartOk(s.products, s.nextLine, s.carts[k]);
    WholeCartSelectsAll(s, s.carts[k]);
    hide Select, ActiveCart, PriceLines, Owns, SelectedBy, ListTotal, DiscountTotal, CheckoutError, ValidKey, Normalize;
  }

  /** At any one moment, the cart is shown as ready exactly when ordering all of it is accepted. */
  lemma CanCheckoutIffOrderAccepted(s: Store, buyer: nat, key: string, evaluate: Evaluator, now: int)
    requires CartsOk(s) && ValidKey(key) && (buyer, key) !in s.records
    ensures ProjectCart(s, buyer, now).canCheckout <==> WholeCart(s, buyer, key, evaluate, now).1.Success?
  {
    CanCheckoutMeaning(s, buyer, now);
    WholeCartAccepted(s, buyer, key, evaluate, now);
    var k := ActiveCart(s.carts, buyer);
    if k.Some? {
      var lines := s.carts[k.value].lines;
      assert CartOk(s.products, s.nextLine, s.carts[k.value]);
      PricedIff(s, CURRENCY, lines, [], evaluate);
      forall l <- lines
        ensures CourseIdOf(s, l).Some?
        ensures ProjectLine(s, buyer, now, l).availability == ItemAvailable
           <==> !Owns(s, buyer, CourseIdOf(s, l).value, now) && PriceLine(s, CURRENCY, l, [], evaluate).Success?
      {
        LineAgrees(s, buyer, now, l, evaluate);
      }
    }
    hide WholeCart, ProjectCart, ProjectLine, Owns, PriceLine, PriceLines, ActiveCart, CartsOk;
  }

  /** Then the order costs what was shown: its subtotal and payable amount are the cart's subtotal. */
  lemma OrderCostsWhatWasShown(s: Store, buyer: nat, key: string, evaluate: Evaluator, now: int)
    requires CartsOk(s) && ValidKey(key) && (buyer, key) !in s.records
    requires ProjectCart(s, buyer, now).canCheckout
    ensures var (t, r) := WholeCart(s, buyer, key, evaluate, now);
            && r.Success? && r.value < |t.orders|
            && t.orders[r.value].subtotal == t.orders[r.value].payable == ProjectCart(s, buyer, now).subtotal
  {
    CanCheckoutIffOrderAccepted(s, buyer, key, evaluate, now);
    CanCheckoutMeaning(s, buyer, now);
    WholeCartSubtotal(s, buyer, key, evaluate, now);
    var k := ActiveCart(s.carts, buyer).value;
    var lines := s.carts[k].lines;
    var items := ProjectLines(s, buyer, now, lines);
    PricedEach(s, CURRENCY, lines, [], evaluate);
    var priced := PriceLines(s, CURRENCY, lines, [], evaluate).value;
    assert CartOk(s.products, s.nextLine, s.carts[k]);
    forall i | 0 <= i < |lines|
      ensures items[i].availability == ItemAvailable && items[i].price == priced[i].listPrice && priced[i].discount == 0
    {
      ProjectedEach(s, buyer, now, lines, i);
      assert lines[i] in lines;
      LineAgrees(s, buyer, now, lines[i], evaluate);
    }
    TotalsAgree(items, priced);
    NoDiscount(priced);
    hide WholeCart, ProjectLine, ProjectLines, PriceLine, PriceLines, ActiveCart, CartsOk, Owns;
  }

  lemma {:induction false} NoDiscount(priced: seq<PricedLine>)
    requires forall i :: 0 <= i < |priced| ==> priced[i].discount == 0
    ensures DiscountTotal(priced) == 0
  {
    if priced != [] {
      NoDiscount(priced[..|priced| - 1]);
    }
  }
}
