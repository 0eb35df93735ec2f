/** What every run keeps of the carts, how a checkout divides one, and when the shown cart can be ordered. */
module CommerceCarts {
  import opened Wrappers
  import opened Sorting
  import opened Commerce
  import CourseAccess

  // ----- The invariant

  predicate OneProductPerCourse(products: seq<Product>) {
    forall i, j :: 0 <= i < j < |products| && products[i].courseId.Some? ==> products[i].courseId != products[j].courseId
  }

  predicate LineOk(products: seq<Product>, nextLine: nat, l: CartLine) {
    l.productId < |products| && products[l.productId].courseId.Some? && l.id < nextLine && l.quantity == 1
  }

  predicate LinesDistinct(lines: seq<CartLine>) {
    forall i, j :: 0 <= i < j < |lines| ==> lines[i].id != lines[j].id && lines[i].productId != lines[j].productId
  }

  predicate CartOk(products: seq<Product>, nextLine: nat, c: Cart) {
    c.currency == CURRENCY && LinesDistinct(c.lines) && forall l <- c.lines :: LineOk(products, nextLine, l)
  }

  predicate OneActiveCart(carts: seq<Cart>) {
    forall i, j :: 0 <= i < j < |carts| && carts[i].active && carts[j].active ==> carts[i].buyer != carts[j].buyer
  }

  ghost predicate CartsOk(s: Store) {
    && OneProductPerCourse(s.products)
    && OneActiveCart(s.carts)
    && forall i :: 0 <= i < |s.carts| ==> CartOk(s.products, s.nextLine, s.carts[i])
  }

  /** More products, and larger line numbers, do no harm. */
  ghost predicate ProductsGrow(products: seq<Product>, later: seq<Product>) {
    |products| <= |later| && forall i :: 0 <= i < |products| ==> later[i].courseId == products[i].courseId
  }

  lemma GrowthKeepsCart(products: seq<Product>, nextLine: nat, later: seq<Product>, nextLine': nat, c: Cart)
    requires CartOk(products, nextLine, c) && ProductsGrow(products, later) && nextLine <= nextLine'
    ensures CartOk(later, nextLine', c)
  {
  }

  /** Replacing one cart, without making it active for anyone new, and growing the other tables. */
  lemma ReplaceKeepsCarts(s: Store, k: nat, c: Cart, later: seq<Product>, nextLine: nat, t: Store)
    requires CartsOk(s) && k < |s.carts| && ProductsGrow(s.products, later) && OneProductPerCourse(later) && s.nextLine <= nextLine
    requires CartOk(later, nextLine, c) && c.buyer == s.carts[k].buyer && (c.active ==> s.carts[k].active)
    requires t.products == later && t.nextLine == nextLine && t.carts == s.carts[k := c]
    ensures CartsOk(t)
  {
    hide CartOk, OneProductPerCourse;
    forall i | 0 <= i < |t.carts| ensures CartOk(later, nextLine, t.carts[i]) {
      if i != k {
        GrowthKeepsCart(s.products, s.nextLine, later, nextLine, s.carts[i]);
      }
    }
  }

  /** A new cart for a buyer without an active one. */
  lemma AppendKeepsCarts(s: Store, c: Cart, nextLine: nat, t: Store)
    requires CartsOk(s) && s.nextLine <= nextLine && CartOk(s.products, nextLine, c)
    requires forall d <- s.carts :: !(d.active && d.buyer == c.buyer)
    requires t.products == s.products && t.nextLine == nextLine && t.carts == s.carts + [c]
    ensures CartsOk(t)
  {
    hide CartOk, OneProductPerCourse;
    forall i | 0 <= i < |t.carts| ensures CartOk(s.products, nextLine, t.carts[i]) {
      if i < |s.carts| {
        GrowthKeepsCart(s.products, s.nextLine, s.products, nextLine, s.carts[i]);
      }
    }
  }

  // ----- Filling a cart

  lemma EnsureProductFacts(s: Store, courseId: nat)
    requires OneProductPerCourse(s.products) && courseId in s.access.courses
    ensures var (products, r) := EnsureProduct(s, courseId);
            && ProductsGrow(s.products, products) && OneProductPerCourse(products)
            && (r.Success? ==> r.value < |products| && products[r.value].courseId == Some(courseId) && products[r.value].status == ActiveProduct)
  {
  }

  lemma WithLineOk(products: seq<Product>, nextLine: nat, c: Cart, productId: nat)
    requires CartOk(products, nextLine, c) && productId < |products| && products[productId].courseId.Some?
    ensures CartOk(products, nextLine + 1, c.(lines := WithLine(c.lines, nextLine, productId)))
  {
    var lines := WithLine(c.lines, nextLine, productId);
    if HasProduct(c.lines, productId) {
      assert lines == c.lines;
    } else {
      forall l <- lines ensures LineOk(products, nextLine + 1, l) {
        assert l in c.lines || l == CartLine(nextLine, productId, 1);
      }
      forall i, j | 0 <= i < j < |lines| ensures lines[i].id != lines[j].id && lines[i].productId != lines[j].productId {
        assert lines[i] in c.lines;
      }
    }
  }

  lemma AddKeepsCarts(s: Store, buyer: nat, courseId: nat, now: int)
    requires CartsOk(s)
    ensures CartsOk(AddCourse(s, buyer, courseId, now).0)
  {
    hide CartOk, OneProductPerCourse, OneActiveCart, EnsureProduct, Owns, WithLine, ProductsGrow;
    var (t, r) := AddCourse(s, buyer, courseId, now);
    if r.Success? {
      EnsureProductFacts(s, courseId);
      var (products, product) := EnsureProduct(s, courseId);
      var k := ActiveCart(s.carts, buyer);
      var withCart := if k.Some? then s else s.(carts := s.carts + [Cart(buyer, true, CURRENCY, [])]);
      if k.None? {
        EmptyCartOk(s.products, s.nextLine, Cart(buyer, true, CURRENCY, []));
        AppendKeepsCarts(s, Cart(buyer, true, CURRENCY, []), s.nextLine, withCart);
      }
      var at := if k.Some? then k.value else |s.carts|;
      GrowthKeepsCart(s.products, s.nextLine, products, s.nextLine, withCart.carts[at]);
      WithLineOk(products, s.nextLine, withCart.carts[at], product.value);
      ReplaceKeepsCarts(withCart, at, withCart.carts[at].(lines := WithLine(withCart.carts[at].lines, s.nextLine, product.value)), products, s.nextLine + 1, t);
    }
  }

  lemma EmptyCartOk(products: seq<Product>, nextLine: nat, c: Cart)
    requires c.currency == CURRENCY && c.lines == []
    ensures CartOk(products, nextLine, c)
  {
  }

  // ----- Taking lines out

  lemma GrowsItself(products: seq<Product>)
    ensures ProductsGrow(products, products)
  {
  }

  lemma FewerLinesOk(products: seq<Product>, nextLine: nat, c: Cart, d: Cart, p: CartLine -> bool)
    requires CartOk(products, nextLine, c) && d.currency == c.currency && d.lines == Select(c.lines, p)
    ensures CartOk(products, nextLine, d)
  {
    SelectPairs(c.lines, p, Apart());
    assert forall i, j :: 0 <= i < j < |d.lines| ==> Apart()(d.lines[i], d.lines[j]);
  }

  function Apart(): (CartLine, CartLine) -> bool { (a: CartLine, b: CartLine) => a.id != b.id && a.productId != b.productId }

  function OtherCourse(s: Store, courseId: nat): CartLine -> bool { (l: CartLine) => CourseIdOf(s, l) != Some(courseId) }

  lemma {:induction false} SelectAll<T(!new)>(s: seq<T>, p: T -> bool)
    requires forall x <- s :: p(x)
    ensures Select(s, p) == s
  {
    if s != [] {
      assert forall x <- s[1..] :: x in s;
      SelectAll(s[1..], p);
    }
  }

  /** Distinct products of distinct courses: removing the first line for the course removes every line for it. */
  lemma {:induction false} RemovesTheCourse(s: Store, lines: seq<CartLine>, courseId: nat)
    requires OneProductPerCourse(s.products) && LinesDistinct(lines)
    ensures WithoutCourse(s, lines, courseId) == Select(lines, OtherCourse(s, courseId))
  {
    if lines != [] {
      if CourseIdOf(s, lines[0]) == Some(courseId) {
        forall l <- lines[1..] ensures OtherCourse(s, courseId)(l) {
          var j :| 0 < j < |lines| && lines[j] == l;
          assert lines[0].productId != lines[j].productId;
        }
        SelectAll(lines[1..], OtherCourse(s, courseId));
      } else {
        assert OtherCourse(s, courseId)(lines[0]);
        RemovesTheCourse(s, lines[1..], courseId);
      }
    }
  }

  lemma RemoveKeepsCarts(s: Store, buyer: nat, courseId: nat)
    requires CartsOk(s)
    ensures CartsOk(RemoveCourse(s, buyer, courseId))
  {
    var k := ActiveCart(s.carts, buyer);
    if k.Some? {
      var c := s.carts[k.value];
      RemovesTheCourse(s, c.lines, courseId);
      hide CartOk, OneProductPerCourse, OneActiveCart, WithoutCourse, ProductsGrow;
      var d := c.(lines := WithoutCourse(s, c.lines, courseId));
      FewerLinesOk(s.products, s.nextLine, c, d, OtherCourse(s, courseId));
      GrowsItself(s.products);
      ReplaceKeepsCarts(s, k.value, d, s.products, s.nextLine, RemoveCourse(s, buyer, courseId));
    }
  }

  lemma ClearKeepsCarts(s: Store, buyer: nat)
    requires CartsOk(s)
    ensures CartsOk(ClearCart(s, buyer))
  {
    hide CartOk, OneProductPerCourse, OneActiveCart, ProductsGrow;
    var k := ActiveCart(s.carts, buyer);
    if k.Some? {
      var d := s.carts[k.value].(lines := []);
      assert CartOk(s.products, s.nextLine, s.carts[k.value]);
      ClearedOk(s.products, s.nextLine, s.carts[k.value]);
      GrowsItself(s.products);
      ReplaceKeepsCarts(s, k.value, d, s.products, s.nextLine, ClearCart(s, buyer));
    }
  }

  lemma ClearedOk(products: seq<Product>, nextLine: nat, c: Cart)
    requires CartOk(products, nextLine, c)
    ensures CartOk(products, nextLine, c.(lines := []))
  {
  }

  // ----- Dividing a cart

  lemma RenumberedOk(products: seq<Product>, nextLine: nat, c: Cart, buyer: nat)
    requires CartOk(products, nextLine, c)
    ensures CartOk(products, nextLine + |c.lines|, Cart(buyer, true, c.currency, Renumbered(c.lines, nextLine)))
  {
    var lines := Renumbered(c.lines, nextLine);
    forall l <- lines ensures LineOk(products, nextLine + |c.lines|, l) {
      var i :| 0 <= i < |lines| && lines[i] == l;
      assert c.lines[i] in c.lines;
    }
  }

  lemma PlaceKeepsCarts(s: Store, buyer: nat, key: string, request: Request, cart: nat, selected: seq<CartLine>, priced: seq<PricedLine>)
    requires CartsOk(s) && ActiveCart(s.carts, buyer) == Some(cart)
    ensures CartsOk(Place(s, buyer, key, request, cart, selected, priced))
  {
    hide CartOk, OneProductPerCourse, ProductsGrow, Renumbered, Select, BenefitsOf, ReservationsOf, OrderLinesOf, RedemptionsOf, Redeem, ListTotal, DiscountTotal;
    var c := s.carts[cart];
    var t := Place(s, buyer, key, request, cart, selected, priced);
    var kept := Select(c.lines, NotAmong(selected));
    var sold := c.(active := false, lines := Select(c.lines, AmongIds(selected)));
    FewerLinesOk(s.products, s.nextLine, c, sold, AmongIds(selected));
    GrowsItself(s.products);
    var closed := s.(carts := s.carts[cart := sold]);
    ReplaceKeepsCarts(s, cart, sold, s.products, s.nextLine, closed);
    if kept != [] {
      FewerLinesOk(s.products, s.nextLine, c, c.(lines := kept), NotAmong(selected));
      RenumberedOk(s.products, s.nextLine, c.(lines := kept), buyer);
      forall d <- closed.carts ensures !(d.active && d.buyer == buyer) {
        var i :| 0 <= i < |closed.carts| && closed.carts[i] == d;
        assert i != cart ==> d == s.carts[i];
      }
      AppendKeepsCarts(closed, Cart(buyer, true, c.currency, Renumbered(kept, s.nextLine)), s.nextLine + |kept|, t);
    }
  }

  lemma OrderKeepsCarts(s: Store, buyer: nat, key: string, courses: Option<seq<nat>>, applications: seq<Application>, evaluate: Evaluator, now: int)
    requires CartsOk(s)
    ensures CartsOk(CreateOrder(s, buyer, key, courses, applications, evaluate, now).0)
  {
    hide CartsOk, Place, Normalize, CheckoutError, PriceLines, Select, ActiveCart, ValidKey;
    var (t, r) := CreateOrder(s, buyer, key, courses, applications, evaluate, now);
    if r.Success? && (buyer, key) !in s.records {
      var request := Normalize(courses, applications).value;
      var k := ActiveCart(s.carts, buyer).value;
      var selected := Select(s.carts[k].lines, SelectedBy(s, request.courses));
      var priced := PriceLines(s, s.carts[k].currency, selected, request.applications, evaluate).value;
      PlaceKeepsCarts(s, buyer, key, request, k, selected, priced);
    }
  }

  lemma StepKeepsCarts(s: Store, op: Op)
    requires CartsOk(s)
    ensures CartsOk(Step(s, op))
  {
    hide AddCourse, RemoveCourse, ClearCart, CreateOrder, LinesDistinct;
    match op
    case AddCourseOp(buyer, courseId, now) => AddKeepsCarts(s, buyer, courseId, now);
    case RemoveCourseOp(buyer, courseId) => RemoveKeepsCarts(s, buyer, courseId);
    case ClearCartOp(buyer) => ClearKeepsCarts(s, buyer);
    case CreateOrderOp(buyer, key, courses, applications, evaluate, now) => OrderKeepsCarts(s, buyer, key, courses, applications, evaluate, now);
    case AccessOp(access) =>
    case ProductOp(productId, status) =>
  }

  /** After any run each buyer has at most one active cart, and no cart holds a product, or a course, twice. */
  lemma {:induction false} RunKeepsCarts(s: Store, ops: seq<Op>)
    requires CartsOk(s)
    ensures CartsOk(Run(s, ops))
    decreases |ops|
  {
    hide Step, CartsOk;
    if ops != [] {
      StepKeepsCarts(s, ops[0]);
      RunKeepsCarts(Step(s, ops[0]), ops[1..]);
    }
  }

  lemma NoCourseTwice(access: CourseAccess.Store, ops: seq<Op>, cart: nat, i: nat, j: nat)
    requires var s := Run(Empty(access), ops); cart < |s.carts| && i < j < |s.carts[cart].lines|
    ensures var s := Run(Empty(access), ops);
            && CourseIdOf(s, s.carts[cart].lines[i]).Some?
            && CourseIdOf(s, s.carts[cart].lines[i]) != CourseIdOf(s, s.carts[cart].lines[j])
  {
    RunKeepsCarts(Empty(access), ops);
    hide Run;
    var s := Run(Empty(access), ops);
    var lines := s.carts[cart].lines;
    assert CartOk(s.products, s.nextLine, s.carts[cart]);
    assert lines[i] in lines && lines[j] in lines;
    var a, b := lines[i].productId, lines[j].productId;
    assert a != b && a < |s.products| && b < |s.products|;
    if a < b {
      assert s.products[a].courseId != s.products[b].courseId;
    } else {
      assert s.products[b].courseId != s.products[a].courseId;
    }
  }
}
